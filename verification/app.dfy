/** The request handling of app.py: the `/chat` validation in front of the
    answering pipeline, the `/extract_pdf` page, range and whole-document
    extraction with its OCR fallbacks, and the `/upload` dispatch on the
    file name's extension. Form fields are strings, a missing field being
    the empty string; the PDF libraries, the OCR service and the embedder
    and completion of the pipeline are parameters. */
module App {
  import opened Common
  import opened PyStr
  import opened Chunker
  import opened Pipeline

  /** `jsonify({key: value})` with a single string value, or
      `json_error(message, status)`. The key is not recorded: it is
      `"answer"` for every `/chat` reply and `"text"` for every
      `/extract_pdf` reply, so it is fixed by the route. */
  datatype Reply = Json(value: string) | JsonError(message: string, status: nat)

  // ---------------------------------------------------------------------
  // /chat
  // ---------------------------------------------------------------------

  const NoDocumentAnswer: string := "Please extract or upload a document first."

  /** `/chat` with the payload's `doc_text` and `message` (missing or null
      fields given as ""): the `answer` field of the reply, or the error. */
  function Chat(docText: string, message: string, embed: Embedder, complete: Completion): Reply
    requires FixedDimension(embed)
  {
    var doc := Strip(docText);
    var msg := Strip(message);
    if msg == [] then JsonError("message required", 400)
    else if doc == [] then Json(NoDocumentAnswer)
    else match RagAnswer(doc, msg, embed, complete)
      case Success(answer) => Json(answer)
      case Failure(e) => Json("ERROR: " + e)
  }

  /** `/chat` fails exactly when the message is blank, whatever the
      document; the message check comes before the document check. */
  lemma ChatRejectsBlankMessage(docText: string, message: string, embed: Embedder, complete: Completion)
    requires FixedDimension(embed)
    ensures Chat(docText, message, embed, complete).JsonError? <==> IsBlank(message)
    ensures IsBlank(message) ==> Chat(docText, message, embed, complete) == JsonError("message required", 400)
  {
    StripFacts(message);
  }

  /** A usable message with a blank document gets the fixed answer and the
      pipeline is not consulted. */
  lemma ChatWithoutDocument(docText: string, message: string, embed: Embedder, complete: Completion)
    requires FixedDimension(embed)
    requires !IsBlank(message) && IsBlank(docText)
    ensures Chat(docText, message, embed, complete) == Json(NoDocumentAnswer)
  {
    StripFacts(message);
    StripFacts(docText);
  }

  /** Otherwise the pipeline runs on the stripped inputs; its answer, or
      `"ERROR: " + str(e)` for the exception it raised, is the reply. */
  lemma ChatFoldsErrors(docText: string, message: string, embed: Embedder, complete: Completion)
    requires FixedDimension(embed)
    requires !IsBlank(message) && !IsBlank(docText)
    ensures var outcome := RagAnswer(Strip(docText), Strip(message), embed, complete);
      Chat(docText, message, embed, complete)
        == if outcome.Success? then Json(outcome.value) else Json("ERROR: " + outcome.error)
  {
    StripFacts(message);
    StripFacts(docText);
  }

  /** A document that reaches the pipeline from `/chat` always yields at
      least one chunk, so the `text[:1000]` fallback of the embed stage is
      never taken on this route. */
  lemma ChatNeverFallsBack(docText: string)
    requires !IsBlank(docText)
    ensures ChunkText(Strip(docText)) != []
    ensures EmbedInput(Strip(docText), ChunkText(Strip(docText))) == ChunkText(Strip(docText))
  {
    var doc := Strip(docText);
    StripFacts(docText);
    assert !IsSpace(doc[0]);
    ChunkTextEmpty(doc, DefaultSize);
  }

  // ---------------------------------------------------------------------
  // /extract_pdf
  // ---------------------------------------------------------------------

  /** What `extract_text_from_pdf_bytes` returns when neither library finds text. */
  const NoTextSentinel: string := "NO_TEXT_FOUND_PDF"
  const PageSeparator: string := "\n\n"
  /** The 400 messages of a bad `range` field. */
  const RangeNotDashed: string := "Range must be 'start-end'"
  const RangeNotNumeric: string := "Range must be numeric"
  const RangeReversed: string := "Start cannot be greater than end"
  const ImageSuffixes: seq<string> := [".png", ".jpg", ".jpeg", ".webp"]
  const TextSuffixes: seq<string> := [".txt", ".py", ".js", ".html", ".css", ".json", ".md"]

  /** What the route learns from the uploaded bytes through the PDF
      libraries: pdfplumber's per-page `extract_text()` results (`None`
      where a page yields nothing) or the message of the exception opening
      the file raised; the whole-document text; the page count. */
  datatype PdfSource = PdfSource(
    pages: Result<seq<Option<string>>, string>,
    fullText: Result<string, string>,
    pageCount: Result<nat, string>)

  /** Rendering page `p` to an image and running OCR on it: the text, or
      the message of the exception raised on the way. */
  type PageOcr = nat -> Result<string, string>

  /** `request.form.get("ocr", "false").lower() == "true"`. */
  predicate OcrRequested(field: string)
  {
    Lower(field) == "true"
  }

  /** `not t or not t.strip()` for an `extract_text()` result. */
  predicate NothingFound(t: Option<string>)
  {
    t.None? || IsBlank(t.value)
  }

  /** `t or ""`. */
  function OrEmpty(t: Option<string>): string
  {
    if t.None? then "" else t.value
  }

  /** The text contributed by page `p` (1-based): OCR when the page yields
      nothing and OCR was asked for, else the page's own text. */
  function PageText(pages: seq<Option<string>>, p: int, doOcr: bool, ocr: PageOcr): Result<string, string>
    requires 1 <= p <= |pages|
  {
    if NothingFound(pages[p - 1]) && doOcr then ocr(p) else Success(OrEmpty(pages[p - 1]))
  }

  /** The texts of pages `lo .. hi` in ascending order, or the first
      failure among them. */
  function RangeTexts(pages: seq<Option<string>>, lo: int, hi: int, doOcr: bool, ocr: PageOcr): Result<seq<string>, string>
    requires 1 <= lo && (hi < lo || hi <= |pages|)
    decreases hi - lo
  {
    if hi < lo then Success([])
    else match RangeTexts(pages, lo, hi - 1, doOcr, ocr)
      case Failure(e) => Failure(e)
      case Success(texts) =>
        match PageText(pages, hi, doOcr, ocr)
        case Failure(e) => Failure(e)
        case Success(t) => Success(texts + [t])
  }

  /** OCR of pages `1 .. n` in ascending order, or the first failure. */
  function OcrAll(n: nat, ocr: PageOcr): Result<seq<string>, string>
  {
    if n == 0 then Success([])
    else match OcrAll(n - 1, ocr)
      case Failure(e) => Failure(e)
      case Success(texts) =>
        match ocr(n)
        case Failure(e) => Failure(e)
        case Success(t) => Success(texts + [t])
  }

  /** The `range` field `"start-end"`: split at the first `-`, both parts
      parsed by `int` after stripping, start at most end; otherwise the
      message of the 400 reply. */
  function ParseRange(range: string): Result<(int, int), string>
  {
    if '-' !in range then Failure(RangeNotDashed)
    else
      var i := FirstIndex(range, '-');
      RangeBounds(ParseInt(Strip(range[..i])), ParseInt(Strip(range[i + 1..])))
  }

  /** The checks on the two parsed parts of a range, in the route's order. */
  function RangeBounds(start: Option<int>, end: Option<int>): Result<(int, int), string>
  {
    if start.None? || end.None? then Failure(RangeNotNumeric)
    else if start.value > end.value then Failure(RangeReversed)
    else Success((start.value, end.value))
  }

  /** The single-page branch, taken when the `page` field is non-empty. */
  function ExtractPage(page: string, pdf: PdfSource, doOcr: bool, ocr: PageOcr): Reply
  {
    match ParseInt(page)
    case None => JsonError("page must be numeric", 400)
    case Some(p) =>
      match pdf.pages
      case Failure(e) => JsonError(e, 500)
      case Success(pages) =>
        if p < 1 || p > |pages| then JsonError("page out of range", 400)
        else match PageText(pages, p, doOcr, ocr)
          case Failure(e) => JsonError(e, 500)
          case Success(t) => Json(t)
  }

  /** The range branch, taken when `page` is empty and `range` is not. */
  function ExtractRange(range: string, pdf: PdfSource, doOcr: bool, ocr: PageOcr): Reply
  {
    match ParseRange(range)
    case Failure(msg) => JsonError(msg, 400)
    case Success(bounds) =>
      match pdf.pages
      case Failure(e) => JsonError("PDF error: " + e, 500)
      case Success(pages) =>
        match RangeTexts(pages, Max(1, bounds.0), Min(bounds.1, |pages|), doOcr, ocr)
        case Failure(e) => JsonError("PDF error: " + e, 500)
        case Success(texts) => Json(Join(PageSeparator, texts))
  }

  /** The whole-document branch, with OCR of every page when the libraries
      found no text and OCR was asked for. */
  function ExtractFull(pdf: PdfSource, doOcr: bool, ocr: PageOcr): Reply
  {
    match pdf.fullText
    case Failure(e) => JsonError("PDF extraction failed: " + e, 500)
    case Success(text) =>
      if (text == "" || text == NoTextSentinel) && doOcr then
        match pdf.pageCount
        case Failure(e) => JsonError("OCR error: " + e, 500)
        case Success(n) =>
          match OcrAll(n, ocr)
          case Failure(e) => JsonError("OCR error: " + e, 500)
          case Success(texts) => Json(Join(PageSeparator, texts))
      else Json(text)
  }

  /** `/extract_pdf` on values. `filename` is the upload's file name, ""
      when no file was sent. */
  function ExtractPdfSpec(filename: string, page: string, range: string, ocrField: string,
                          pdf: PdfSource, ocr: PageOcr): Reply
  {
    if filename == "" then JsonError("no file", 400)
    else if EndsWithAny(Lower(filename), ImageSuffixes) then JsonError("Use /ocr for image extraction", 400)
    else
      var doOcr := OcrRequested(ocrField);
      if page != "" then ExtractPage(page, pdf, doOcr, ocr)
      else if range != "" then ExtractRange(range, pdf, doOcr, ocr)
      else ExtractFull(pdf, doOcr, ocr)
  }

  /** A failure among the first pages is the failure of every longer range. */
  lemma {:induction false} RangeFailureStays(pages: seq<Option<string>>, lo: int, mid: int, hi: int,
                                             doOcr: bool, ocr: PageOcr)
    requires 1 <= lo && mid <= hi && (hi < lo || hi <= |pages|)
    requires RangeTexts(pages, lo, mid, doOcr, ocr).Failure?
    ensures RangeTexts(pages, lo, hi, doOcr, ocr) == RangeTexts(pages, lo, mid, doOcr, ocr)
    decreases hi - mid
  {
    if mid < hi {
      RangeFailureStays(pages, lo, mid, hi - 1, doOcr, ocr);
    }
  }

  /** A failure among the first pages is the failure of the whole OCR pass. */
  lemma {:induction false} OcrFailureStays(m: nat, n: nat, ocr: PageOcr)
    requires m <= n && OcrAll(m, ocr).Failure?
    ensures OcrAll(n, ocr) == OcrAll(m, ocr)
    decreases n - m
  {
    if m < n {
      OcrFailureStays(m, n - 1, ocr);
    }
  }

  /** The range loop: one text per page from `lo` to `hi`, in order,
      stopping at the first page whose OCR fails. */
  method CollectRange(pages: seq<Option<string>>, lo: int, hi: int, doOcr: bool, ocr: PageOcr)
    returns (r: Result<seq<string>, string>)
    requires 1 <= lo && (hi < lo || hi <= |pages|)
    ensures r == RangeTexts(pages, lo, hi, doOcr, ocr)
  {
    var texts: seq<string> := [];
    var p := lo;
    while p <= hi
      invariant lo <= p && (p <= hi + 1 || p == lo)
      invariant RangeTexts(pages, lo, p - 1, doOcr, ocr) == Success(texts)
      decreases hi - p
    {
      var t := pages[p - 1];
      var text: string;
      if NothingFound(t) && doOcr {
        var o := ocr(p);
        if o.Failure? {
          RangeFailureStays(pages, lo, p, hi, doOcr, ocr);
          return Failure(o.error);
        }
        text := o.value;
      } else {
        text := OrEmpty(t);
      }
      texts := texts + [text];
      p := p + 1;
    }
    r := Success(texts);
  }

  /** The whole-document OCR loop over pages `1 .. n`. */
  method FullOcr(n: nat, ocr: PageOcr) returns (r: Result<seq<string>, string>)
    ensures r == OcrAll(n, ocr)
  {
    var texts: seq<string> := [];
    var p := 1;
    while p <= n
      invariant 1 <= p <= n + 1
      invariant OcrAll(p - 1, ocr) == Success(texts)
    {
      var o := ocr(p);
      if o.Failure? {
        OcrFailureStays(p, n, ocr);
        return Failure(o.error);
      }
      texts := texts + [o.value];
      p := p + 1;
    }
    r := Success(texts);
  }

  /** `extract_pdf_endpoint`: the checks in the route's order, then the
      page, range or whole-document extraction. */
  method ExtractPdf(filename: string, page: string, range: string, ocrField: string,
                    pdf: PdfSource, ocr: PageOcr) returns (reply: Reply)
    ensures reply == ExtractPdfSpec(filename, page, range, ocrField, pdf, ocr)
  {
    if filename == "" {
      return JsonError("no file", 400);
    }
    if EndsWithAny(Lower(filename), ImageSuffixes) {
      return JsonError("Use /ocr for image extraction", 400);
    }
    var doOcr := OcrRequested(ocrField);
    if page != "" {
      return ExtractPage(page, pdf, doOcr, ocr);
    }
    if range != "" {
      var bounds := ParseRange(range);
      if bounds.Failure? {
        return JsonError(bounds.error, 400);
      }
      var (start, end) := bounds.value;
      if pdf.pages.Failure? {
        return JsonError("PDF error: " + pdf.pages.error, 500);
      }
      var pages := pdf.pages.value;
      var texts := CollectRange(pages, Max(1, start), Min(end, |pages|), doOcr, ocr);
      if texts.Failure? {
        return JsonError("PDF error: " + texts.error, 500);
      }
      return Json(Join(PageSeparator, texts.value));
    }
    if pdf.fullText.Failure? {
      return JsonError("PDF extraction failed: " + pdf.fullText.error, 500);
    }
    var text := pdf.fullText.value;
    if (text == "" || text == NoTextSentinel) && doOcr {
      if pdf.pageCount.Failure? {
        return JsonError("OCR error: " + pdf.pageCount.error, 500);
      }
      var all := FullOcr(pdf.pageCount.value, ocr);
      if all.Failure? {
        return JsonError("OCR error: " + all.error, 500);
      }
      return Json(Join(PageSeparator, all.value));
    }
    reply := Json(text);
  }

  /** A non-empty `page` field decides the reply: the `range` field is
      never looked at. */
  lemma PageTakesPrecedence(filename: string, page: string, range1: string, range2: string,
                            ocrField: string, pdf: PdfSource, ocr: PageOcr)
    requires page != ""
    ensures ExtractPdfSpec(filename, page, range1, ocrField, pdf, ocr)
         == ExtractPdfSpec(filename, page, range2, ocrField, pdf, ocr)
  {
  }

  /** A page number is accepted exactly when `1 <= p <= total`; a page
      field `int` rejects is reported as not numeric. */
  lemma PageBounds(page: string, pages: seq<Option<string>>, fullText: Result<string, string>,
                   pageCount: Result<nat, string>, doOcr: bool, ocr: PageOcr)
    ensures var reply := ExtractPage(page, PdfSource(Success(pages), fullText, pageCount), doOcr, ocr);
      && (ParseInt(page).None? <==> reply == JsonError("page must be numeric", 400))
      && ((reply == JsonError("page out of range", 400))
            <==> (ParseInt(page).Some? && (ParseInt(page).value < 1 || ParseInt(page).value > |pages|)))
  {
  }

  /** A page field of more than `MaxStrDigits` ASCII digits is refused as
      not numeric, whatever the document. */
  lemma PageTooLong(page: string, pdf: PdfSource, doOcr: bool, ocr: PageOcr)
    requires AllDigits(page) && |page| > MaxStrDigits
    ensures ExtractPage(page, pdf, doOcr, ocr) == JsonError("page must be numeric", 400)
  {
    assert IsDigitRun(page) by {
      assert IsDigit(page[0]) && IsDigit(page[|page| - 1]);
    }
    ParseIntTooLong(page);
  }

  /** A range without `-` is refused as not of the form `start-end`. */
  lemma RangeNeedsDash(range: string)
    ensures '-' !in range <==> ParseRange(range) == Failure(RangeNotDashed)
  {
  }

  /** A range with a `-` is refused as not numeric exactly when one of the
      two parts around the first `-` is not an integer. */
  lemma RangeNeedsNumbers(range: string, i: nat)
    requires '-' in range && i == FirstIndex(range, '-')
    ensures (ParseInt(Strip(range[..i])).None? || ParseInt(Strip(range[i + 1..])).None?)
        <==> ParseRange(range) == Failure(RangeNotNumeric)
  {
    DashedRange(range, i);
    BoundsNeedNumbers(ParseInt(Strip(range[..i])), ParseInt(Strip(range[i + 1..])));
  }

  /** A range with a `-` is decided by the checks on its two parsed parts. */
  lemma DashedRange(range: string, i: nat)
    requires '-' in range && i == FirstIndex(range, '-')
    ensures ParseRange(range) == RangeBounds(ParseInt(Strip(range[..i])), ParseInt(Strip(range[i + 1..])))
  {
  }

  /** The parts are refused as not numeric exactly when one failed to parse;
      parsed parts are refused exactly when the start is after the end. */
  lemma BoundsNeedNumbers(start: Option<int>, end: Option<int>)
    ensures (start.None? || end.None?) <==> RangeBounds(start, end) == Failure(RangeNotNumeric)
    ensures (start.Some? && end.Some? && start.value > end.value)
        <==> RangeBounds(start, end) == Failure(RangeReversed)
  {
    assert RangeNotNumeric[0] != RangeReversed[0];
  }

  /** An accepted range never starts after it ends. */
  lemma RangeOrdered(range: string)
    requires ParseRange(range).Success?
    ensures ParseRange(range).value.0 <= ParseRange(range).value.1
  {
  }

  /** The first `-` of `sa + "-" + sb` is the one after `sa` when `sa` has none. */
  lemma FirstDashAfter(sa: string, sb: string)
    requires '-' !in sa
    ensures '-' in sa + "-" + sb
    ensures FirstIndex(sa + "-" + sb, '-') == |sa|
  {
    var range := sa + "-" + sb;
    assert range[|sa|] == '-';
    assert range[..|sa|] == sa;
  }

  /** How `ParseRange` accepts: both parts parse and are in order. */
  lemma ParseRangeAccepts(range: string, i: nat, a: int, b: int)
    requires '-' in range && i == FirstIndex(range, '-')
    requires ParseInt(Strip(range[..i])) == Some(a) && ParseInt(Strip(range[i + 1..])) == Some(b)
    requires a <= b
    ensures ParseRange(range) == Success((a, b))
  {
    DashedRange(range, i);
  }

  /** `"a-b"` for digit strings `a` and `b` of at most `MaxStrDigits`
      digits with `a <= b` parses to their values. */
  lemma ParseRangeRoundTrip(sa: string, sb: string)
    requires sa != [] && AllDigits(sa) && |sa| <= MaxStrDigits
    requires sb != [] && AllDigits(sb) && |sb| <= MaxStrDigits
    requires DigitsValue(sa) <= DigitsValue(sb)
    ensures ParseRange(sa + "-" + sb) == Success((DigitsValue(sa) as int, DigitsValue(sb) as int))
  {
    var range := sa + "-" + sb;
    assert '-' !in sa by {
      assert AllDigits(sa);
    }
    FirstDashAfter(sa, sb);
    assert range[..|sa|] == sa;
    assert range[|sa| + 1..] == sb;
    DigitPartParses(sa);
    DigitPartParses(sb);
    ParseRangeAccepts(range, |sa|, DigitsValue(sa), DigitsValue(sb));
  }

  /** A part of ASCII digits survives `strip()` and parses to its value. */
  lemma DigitPartParses(d: string)
    requires d != [] && AllDigits(d) && |d| <= MaxStrDigits
    ensures ParseInt(Strip(d)) == Some(DigitsValue(d) as int)
  {
    assert IsDigit(d[0]) && IsDigit(d[|d| - 1]);
    StripKeepsTrimmed(d);
    ParseIntDigits(d);
  }

  /** `"a-b"` for digit strings `a` and `b` is refused as not numeric once
      either has more than `MaxStrDigits` digits. */
  lemma RangeTooLong(sa: string, sb: string)
    requires sa != [] && AllDigits(sa) && sb != [] && AllDigits(sb)
    requires |sa| > MaxStrDigits || |sb| > MaxStrDigits
    ensures ParseRange(sa + "-" + sb) == Failure(RangeNotNumeric)
  {
    var range := sa + "-" + sb;
    assert '-' !in sa by {
      assert AllDigits(sa);
    }
    FirstDashAfter(sa, sb);
    assert range[..|sa|] == sa;
    assert range[|sa| + 1..] == sb;
    if |sa| > MaxStrDigits {
      LongPartFails(sa);
    } else {
      LongPartFails(sb);
    }
    DashedRange(range, |sa|);
    BoundsNeedNumbers(ParseInt(Strip(sa)), ParseInt(Strip(sb)));
  }

  /** A part of more than `MaxStrDigits` ASCII digits survives `strip()`
      and fails `int`. */
  lemma LongPartFails(d: string)
    requires AllDigits(d) && |d| > MaxStrDigits
    ensures ParseInt(Strip(d)) == None
  {
    assert IsDigit(d[0]) && IsDigit(d[|d| - 1]);
    StripKeepsTrimmed(d);
    assert IsDigitRun(d);
    ParseIntTooLong(d);
  }

  /** A successful range extraction has one text per page of the clamped
      range, page `lo + j` contributing text `j`, and an empty clamped
      range gives the empty string. */
  lemma {:induction false} RangeTextsShape(pages: seq<Option<string>>, lo: int, hi: int, doOcr: bool, ocr: PageOcr)
    requires 1 <= lo && (hi < lo || hi <= |pages|)
    requires RangeTexts(pages, lo, hi, doOcr, ocr).Success?
    ensures var texts := RangeTexts(pages, lo, hi, doOcr, ocr).value;
      && |texts| == (if hi < lo then 0 else hi - lo + 1)
      && forall j :: 0 <= j < |texts| ==> PageText(pages, lo + j, doOcr, ocr) == Success(texts[j])
    decreases hi - lo
  {
    if lo <= hi {
      RangeTextsShape(pages, lo, hi - 1, doOcr, ocr);
    }
  }

  /** A successful OCR pass has one text per page, page `j + 1` giving
      text `j`; the pass succeeds exactly when every page's OCR does. */
  lemma {:induction false} OcrAllShape(n: nat, ocr: PageOcr)
    ensures OcrAll(n, ocr).Success? <==> (forall p :: 1 <= p <= n ==> ocr(p).Success?)
    ensures OcrAll(n, ocr).Success? ==>
      && |OcrAll(n, ocr).value| == n
      && forall j :: 0 <= j < n ==> ocr(j + 1) == Success(OcrAll(n, ocr).value[j])
  {
    if n > 0 {
      OcrAllShape(n - 1, ocr);
    }
  }

  /** Every page of the range succeeding makes the range succeed. */
  lemma {:induction false} RangeTextsSucceed(pages: seq<Option<string>>, lo: int, hi: int, doOcr: bool, ocr: PageOcr)
    requires 1 <= lo && (hi < lo || hi <= |pages|)
    requires forall p :: lo <= p <= hi ==> PageText(pages, p, doOcr, ocr).Success?
    ensures RangeTexts(pages, lo, hi, doOcr, ocr).Success?
    decreases hi - lo
  {
    if lo <= hi {
      RangeTextsSucceed(pages, lo, hi - 1, doOcr, ocr);
    }
  }

  /** A range that starts past the last page, or ends before the first,
      gives the text "". */
  lemma EmptyClampedRange(range: string, pages: seq<Option<string>>, fullText: Result<string, string>,
                          pageCount: Result<nat, string>, doOcr: bool, ocr: PageOcr)
    requires ParseRange(range).Success?
    requires Max(1, ParseRange(range).value.0) > Min(ParseRange(range).value.1, |pages|)
    ensures ExtractRange(range, PdfSource(Success(pages), fullText, pageCount), doOcr, ocr) == Json("")
  {
  }

  /** OCR is consulted for a page only when the page yields nothing and
      OCR was asked for: otherwise any OCR gives the same text. */
  lemma PageOcrOnlyWhenBlank(pages: seq<Option<string>>, p: int, doOcr: bool, ocr1: PageOcr, ocr2: PageOcr)
    requires 1 <= p <= |pages|
    requires !(NothingFound(pages[p - 1]) && doOcr)
    ensures PageText(pages, p, doOcr, ocr1) == PageText(pages, p, doOcr, ocr2) == Success(OrEmpty(pages[p - 1]))
  {
  }

  /** The whole-document OCR pass, and the page count it needs, are used
      only when the text is empty or the sentinel and OCR was asked for. */
  lemma FullOcrOnlyWhenNoText(text: string, pages: Result<seq<Option<string>>, string>,
                              count1: Result<nat, string>, count2: Result<nat, string>,
                              doOcr: bool, ocr1: PageOcr, ocr2: PageOcr)
    requires !((text == "" || text == NoTextSentinel) && doOcr)
    ensures ExtractFull(PdfSource(pages, Success(text), count1), doOcr, ocr1)
         == ExtractFull(PdfSource(pages, Success(text), count2), doOcr, ocr2)
         == Json(text)
  {
  }

  /** An ASCII lower-case letter is the lowering of itself and of its
      upper-case form, and of no other character. */
  lemma LowerCharIs(c: char, lower: char)
    requires 'a' <= lower <= 'z'
    ensures LowerChar(c) == lower <==> (c == lower || c == (lower as int - 'a' as int + 'A' as int) as char)
  {
  }

  /** The flag is set exactly by the four letters of "true", each in
      either case. */
  lemma OcrFlag(field: string)
    ensures OcrRequested(field)
        <==> (&& |field| == 4
              && field[0] in "tT" && field[1] in "rR" && field[2] in "uU" && field[3] in "eE")
  {
    if |field| == 4 {
      LowerCharIs(field[0], 't');
      LowerCharIs(field[1], 'r');
      LowerCharIs(field[2], 'u');
      LowerCharIs(field[3], 'e');
      var l := Lower(field);
      assert l == [LowerChar(field[0]), LowerChar(field[1]), LowerChar(field[2]), LowerChar(field[3])];
    }
  }

  // ---------------------------------------------------------------------
  // /upload
  // ---------------------------------------------------------------------

  datatype FileKind = Image | Pdf | Text

  /** The `meta` part of a successful upload reply together with the
      extracted text, or `json_error`. Only a PDF's `meta` has a `pages`
      key; `None` stands for its absence. */
  datatype UploadReply =
    | Uploaded(filename: string, size: nat, kind: FileKind, pages: Option<nat>, extracted: string)
    | UploadError(message: string, status: nat)

  /** The services the route calls: `secure_filename`, OCR of an image,
      the page count pdfinfo reports (`None` for any exception on the way)
      and `bytes.decode(errors="ignore")`. */
  datatype UploadServices = UploadServices(
    secure: string -> string,
    imageOcr: seq<bv8> -> Result<string, string>,
    pdfPages: seq<bv8> -> Option<nat>,
    decode: seq<bv8> -> string)

  /** `upload_file` for a file with the given name and contents; "" as name
      stands for a request without a file. */
  function Upload(name: string, data: seq<bv8>, services: UploadServices): UploadReply
  {
    if name == "" then UploadError("No file uploaded", 400)
    else
      var filename := services.secure(name);
      var lower := Lower(filename);
      if EndsWithAny(lower, ImageSuffixes) then
        match services.imageOcr(data)
        case Success(text) => Uploaded(filename, |data|, Image, None, text)
        case Failure(e) => UploadError("OCR failed: " + e, 500)
      else if EndsWith(lower, ".pdf") then
        var pages := services.pdfPages(data);
        var n := if pages.Some? then pages.value else 1;
        Uploaded(filename, |data|, Pdf, Some(n), "")
      else if EndsWithAny(lower, TextSuffixes) then
        Uploaded(filename, |data|, Text, None, services.decode(data))
      else UploadError("Unsupported file type", 400)
  }

  /** A file is refused as unsupported exactly when its secured, lowercased
      name ends with none of the image, PDF or text suffixes. */
  lemma UploadUnsupported(name: string, data: seq<bv8>, services: UploadServices)
    requires name != ""
    ensures var lower := Lower(services.secure(name));
      (Upload(name, data, services) == UploadError("Unsupported file type", 400))
        <==> (!EndsWithAny(lower, ImageSuffixes) && !EndsWith(lower, ".pdf") && !EndsWithAny(lower, TextSuffixes))
  {
  }

  /** A PDF whose page count cannot be read reports one page and no text. */
  lemma UploadPdfDefaultsToOnePage(name: string, data: seq<bv8>, services: UploadServices)
    requires name != "" && services.pdfPages(data).None?
    requires EndsWith(Lower(services.secure(name)), ".pdf")
    ensures Upload(name, data, services) == Uploaded(services.secure(name), |data|, Pdf, Some(1), "")
  {
    LastCharOfSuffix(Lower(services.secure(name)), ".pdf");
    SuffixClassesDisjoint(Lower(services.secure(name)));
  }

  /** Only a PDF's reply carries a page count. */
  lemma UploadPagesOnlyForPdf(name: string, data: seq<bv8>, services: UploadServices)
    ensures var reply := Upload(name, data, services);
      reply.Uploaded? ==> (reply.pages.Some? <==> reply.kind == Pdf)
  {
  }

  /** A string that ends with `suffix` ends with its last character. */
  lemma LastCharOfSuffix(s: string, suffix: string)
    requires |suffix| > 0 && EndsWith(s, suffix)
    ensures |s| > 0 && s[|s| - 1] == suffix[|suffix| - 1]
  {
    assert s[|s| - |suffix|..][|suffix| - 1] == s[|s| - 1];
  }

  /** No name ends with suffixes of two classes, so the order in which the
      route tests them changes nothing. */
  lemma SuffixClassesDisjoint(s: string)
    ensures !(EndsWithAny(s, ImageSuffixes) && EndsWith(s, ".pdf"))
    ensures !(EndsWithAny(s, ImageSuffixes) && EndsWithAny(s, TextSuffixes))
    ensures !(EndsWith(s, ".pdf") && EndsWithAny(s, TextSuffixes))
  {
    if EndsWithAny(s, ImageSuffixes) {
      ImageLastChar(s);
    }
    if EndsWithAny(s, TextSuffixes) {
      TextLastChar(s);
    }
    if EndsWith(s, ".pdf") {
      LastCharOfSuffix(s, ".pdf");
    }
  }

  /** An image name ends with `g` or `p`. */
  lemma ImageLastChar(s: string)
    requires EndsWithAny(s, ImageSuffixes)
    ensures |s| > 0 && s[|s| - 1] in {'g', 'p'}
  {
    assert ImageSuffixes[0][3] == ImageSuffixes[1][3] == 'g';
    assert ImageSuffixes[2][4] == 'g' && ImageSuffixes[3][4] == 'p';
    SuffixLastChar(s, ImageSuffixes, {'g', 'p'});
  }

  /** A text name ends with one of `t y s l n d`. */
  lemma TextLastChar(s: string)
    requires EndsWithAny(s, TextSuffixes)
    ensures |s| > 0 && s[|s| - 1] in {'t', 'y', 's', 'l', 'n', 'd'}
  {
    assert TextSuffixes[0][3] == 't' && TextSuffixes[1][2] == 'y' && TextSuffixes[2][2] == 's';
    assert TextSuffixes[3][4] == 'l' && TextSuffixes[4][3] == 's' && TextSuffixes[5][4] == 'n';
    assert TextSuffixes[6][2] == 'd';
    SuffixLastChar(s, TextSuffixes, {'t', 'y', 's', 'l', 'n', 'd'});
  }

  /** A string that ends with one of `suffixes` ends with one of their last characters. */
  lemma SuffixLastChar(s: string, suffixes: seq<string>, lasts: set<char>)
    requires forall i :: 0 <= i < |suffixes| ==> |suffixes[i]| > 0 && suffixes[i][|suffixes[i]| - 1] in lasts
    requires EndsWithAny(s, suffixes)
    ensures |s| > 0 && s[|s| - 1] in lasts
  {
    var i :| 0 <= i < |suffixes| && EndsWith(s, suffixes[i]);
    LastCharOfSuffix(s, suffixes[i]);
  }

  /** The dispatch looks at the secured name only through its lower-case
      form: names that agree on it get the same kind of reply. */
  lemma UploadIgnoresCase(name1: string, name2: string, data: seq<bv8>, services: UploadServices)
    requires name1 != "" && name2 != ""
    requires Lower(services.secure(name1)) == Lower(services.secure(name2))
    ensures Upload(name1, data, services).Uploaded? == Upload(name2, data, services).Uploaded?
    ensures Upload(name1, data, services).Uploaded? ==>
      Upload(name1, data, services).kind == Upload(name2, data, services).kind
  {
  }
}

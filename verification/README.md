# DocuQuery AI: a Dafny model of its question-answering core

DocuQuery AI is a Flask service. A user uploads a document, the service
extracts its text (OCR is optional), and the user asks questions about it.
Each question goes through a retrieval-augmented pipeline:

1. the text is cut into word chunks;
2. each chunk is embedded;
3. the three chunks nearest to the embedded question are found in an exact
   L2 index;
4. those chunks, joined in rank order, are sent to a chat-completion model
   together with the question.

This project models that core in Dafny, with one module per concern:

- `Common`: `Option`, `Result`, `Min`, `Max`.
- `PyStr`: the Python string built-ins the code relies on.
  - `str.split()` and `str.strip()` use Python's `isspace` character set.
  - `sep.join`, `str.lower()` (ASCII letters only) and `str.endswith`.
  - Finding the first `-` (what `split("-", 1)` cuts at).
  - Base-10 `int(s)`: an optional sign and digits with single underscores
    between them, surrounded by the whitespace `int` skips. Below U+0080
    that is only `\t \n \v \f \r` and space. The separators U+001C to
    U+001F are not skipped, although `str.strip()` removes them. A literal
    of more than 4300 digits, CPython's integer-string conversion limit,
    is refused.
- `Chunker` models `chunk_text` in `rag_utils.py`.
- `FlatL2` models `faiss.IndexFlatL2` as the class `FlatIndex`.
  - `Add` appends vectors.
  - `Search` ranks the stored vectors by squared distance and returns `k`
    labels, padded with `-1`. Ties go to the lower label.
  - `Search` is a loop that keeps a running top-`k`. It is proved equal to
    the first `k` entries of a full insertion ranking.
- `Pipeline` models `graph.py`.
  - The `State` record becomes the class `RagState`, with one method per
    graph node. A ghost stage field enforces the edge order chunk → embed →
    answer.
  - `RunRagSync` runs the three nodes on a fresh state.
  - `RagAnswer` is the same pipeline written as a function.
  - The embedder and the completion service are function parameters:
    - the embedder gives vectors of one fixed dimension;
    - the completion returns the reply's content, or the message of the
      exception it raised.
- `App` models the `/chat`, `/extract_pdf` and `/upload` routes of `app.py`.
  - Form fields are strings, and a missing field is `""`.
  - The PDF libraries, OCR, `secure_filename`, the PDF page count and
    `bytes.decode` are parameters.
  - `/extract_pdf` is the method `ExtractPdf`, proved equal to the function
    `ExtractPdfSpec`. Its page-range loop and its whole-document OCR loop are
    the methods `CollectRange` and `FullOcr`, each proved against a recursive
    function.

Two behaviours of the code are easy to miss:

- **Search with fewer than three chunks.** The code always asks FAISS for 3
  labels. FAISS pads the missing places with `-1`, and `chunks[-1]` turns
  each of them into the last chunk. The context then repeats that chunk
  (see `PaddingPicksLast` and `SingleChunkContext`).
- **Where errors are folded.** `run_rag_sync` lets every exception through.
  The `/chat` route is what turns it into the answer `"ERROR: " + e` (see
  `ChatFoldsErrors`).

## Model

| member | source | states |
|---|---|---|
| Chunker.ChunkText | rag_utils.py:1-3 | `chunk_text(text, size)` with the default size 300; its properties are the lemmas below. |
| Chunker.ChunkTextRoundTrip | rag_utils.py:1-3 | Splitting every chunk again and concatenating the word lists in order gives exactly `text.split()`. |
| Chunker.ChunkTextCount | rag_utils.py:2-3 | The number of chunks `c` is `ceil(n / size)` for `n` words: `c * size >= n` and `(c - 1) * size < n` when `c > 0`. |
| Chunker.ChunkTextEmpty | rag_utils.py:2-3 | There are no chunks exactly when the text is empty or whitespace only. |
| Chunker.ChunkShape | rag_utils.py:3 | Every chunk but the last has `size` words, the last has between 1 and `size`, and no chunk is the empty string. |
| Chunker.ChunkWindow | rag_utils.py:2-3 | Chunk `i` splits back into `words[i*size : min((i+1)*size, n)]`, and `i*size < n`. |
| Chunker.ChunkAt | rag_utils.py:3 | On a word list, chunk `i` is `" ".join(words[i*size : min((i+1)*size, n)])`. |
| Chunker.ChunkCount | rag_utils.py:3 | On a word list, the chunk count is the least `c` with `c * size >= n`. |
| Chunker.ChunkWordsRoundTrip | rag_utils.py:3 | On a list of words, splitting the chunks and concatenating gives back the list. |
| Chunker.ChunkWordsShape | rag_utils.py:3 | On a list of words, chunk `i` has 1 to `size` words, and exactly `size` unless it is the last. |
| Chunker.ChunkWordsWindow | rag_utils.py:3 | On a list of words, chunk `i` splits back into window `i`. |
| PyStr.SplitWords | rag_utils.py:2 | Every element of `s.split()` is non-empty and contains no whitespace. |
| PyStr.SplitBlank | rag_utils.py:2 | `s.split()` is empty exactly when `s` is empty or whitespace only. |
| PyStr.SplitJoin | rag_utils.py:3 | Joining words with one space and splitting again gives back the words. |
| PyStr.WordLenFacts | rag_utils.py:2 | A split word runs up to the first whitespace character or to the end of the string. |
| PyStr.DropSpaceFacts | app.py:283-284 | `strip()` removes a leading part that is all whitespace and keeps the rest unchanged. |
| PyStr.DropSpaceEndFacts | app.py:283-284 | `strip()` removes a trailing part that is all whitespace and keeps the rest unchanged. |
| PyStr.StripFacts | app.py:283-284 | `s.strip()` is empty exactly for blank `s`; otherwise its first and last characters are not whitespace. |
| PyStr.FirstIndex | app.py:208 | The result is a position holding `c`, and no `c` occurs before it. |
| PyStr.ParseIntDigits | app.py:180 | `int(d)` is the decimal value of a non-empty string of at most 4300 ASCII digits. |
| PyStr.ParseIntNegative | app.py:180 | `int("-" + d)` is minus the decimal value of a digit string `d` of at most 4300 digits. |
| PyStr.ParseIntTooLong | app.py:180 | A sign followed by a well-formed digit run of more than 4300 digits, not counting underscores, makes `int` fail. This is CPython's integer-string conversion limit. |
| PyStr.ParseIntTrimmed | app.py:180 | The whitespace skipping of `int` changes nothing for a string that starts with `-`, `+` or a digit and ends with a digit. |
| PyStr.ParseIntSkipsSpace | app.py:180 | Any run of the whitespace `int` skips, before and after a literal that starts with a sign or digit and ends with a digit, leaves its value unchanged. |
| PyStr.ParseIntRejectsSeparator | app.py:180 | A string that starts or ends with one of U+001C to U+001F makes `int` fail, although that character is whitespace to `str.isspace()`. |
| PyStr.ParseInt | app.py:180 | Python's base-10 `int(s)`, digit limit included, with `None` for the `ValueError`; its properties are the lemmas above. |
| PyStr.Join | rag_utils.py:3 | `sep.join(items)`; its properties are `SplitJoin` and `JoinStartsWithFirst`. |
| PyStr.Lower | app.py:77 | `str.lower()` on ASCII letters; its property is `LowerCharIs`. |
| PyStr.EndsWithAny | app.py:80 | `s.endswith(tuple)`; its properties are `SuffixClassesDisjoint` and `UploadUnsupported`. |
| PyStr.Split | rag_utils.py:2 | Python's `s.split()`; its properties are `SplitWords`, `SplitBlank` and `SplitJoin`. |
| PyStr.Strip | app.py:283-284 | Python's `s.strip()`; its properties are `StripFacts`, `DropSpaceFacts` and `DropSpaceEndFacts`. |
| FlatL2.FlatIndex.constructor | graph.py:38 | `IndexFlatL2(dim)` is an empty index of dimension `dim`. |
| FlatL2.FlatIndex.Add | graph.py:39 | The batch is appended, so label `i` is the `i`-th vector added, and every stored vector keeps the index's dimension. |
| FlatL2.FlatIndex.Search | graph.py:49 | The labels are the first `min(k, n)` entries of the ranking padded with `-1` to `k`; the distances are those of the real hits. |
| FlatL2.TopK | graph.py:49 | The labels FAISS finds, before padding; its property is `TopKIsTopK`, and `FlatIndex.Search` is proved to return them. |
| FlatL2.Padded | graph.py:49 | `I[0]`: the found labels followed by `-1` up to `k`; its properties are in `FlatIndex.Search` and `PaddedLabels`. |
| FlatL2.TopKIsTopK | graph.py:49 | The top-`k` has `min(k, n)` labels, in ranking order, and none is farther than any label left out. |
| FlatL2.RankAllFacts | graph.py:49 | The ranking of the first `j` labels lists each of them exactly once, in ranking order. |
| FlatL2.InsertRankedFacts | graph.py:49 | Inserting into a ranked list a label larger than every label already there keeps the list ranked and adds exactly that label. This is the only kind of insertion the search loop makes. |
| FlatL2.ScanStep | graph.py:49 | One step of the search loop: the top-`k` of `j + 1` vectors is one insertion into the top-`k` of `j`, truncated. |
| FlatL2.TruncateInsert | graph.py:49 | Truncating before or after an insertion gives the same first `t` labels. |
| FlatL2.RankedDistinct | graph.py:49 | A ranked label list never holds a label twice. |
| FlatL2.NearestFirst | graph.py:49 | The first hit is no farther than any stored vector; if some vector is at distance zero, so is the first hit. |
| FlatL2.SqDistSelf | graph.py:38 | Under the index's squared L2 metric, a vector is at distance zero from itself. |
| FlatL2.SearchFindsStored | graph.py:49 | With a stored vector as the query, the first hit is at distance zero and was not added after that vector. |
| FlatL2.SqDist | graph.py:38 | The squared L2 distance is never negative. |
| Pipeline.EmbedAll | graph.py:35 | `encode` yields exactly one vector per chunk. |
| Pipeline.SearchLabels | graph.py:49 | `I[0]` of `search(q_vec, 3)` on the embedded chunks; its properties are `PaddedLabels` and `RetrievedRanked`. |
| Pipeline.PyIndex | graph.py:51 | Python's `chunks[i]` with a negative `i` counted from the end; its property is `PaddingPicksLast`. |
| Pipeline.Retrieved | graph.py:51 | The list comprehension over `I[0]` yields one chunk per returned label. |
| Pipeline.EmbedInput | graph.py:32-33 | The list the embed stage indexes; its properties are in `EmbedInputFacts`. |
| Pipeline.BuildRequest | graph.py:54-60 | The completion request; its exact content is in `PromptCarries`. |
| Pipeline.RagAnswer | graph.py:26-64 | The three stages composed as one function of the text and the query; `RunRagSync` is proved equal to it. |
| Pipeline.EmbedInputFacts | graph.py:32-33 | The embed stage never indexes an empty list. An empty chunk list becomes exactly `[text[:1000]]`, a prefix of the text of length `min(1000, len(text))`; any other list is kept unchanged. |
| Pipeline.PaddedLabels | graph.py:49 | The search returns exactly 3 labels. The first `min(3, n)` are the ranked hits, the rest are `-1`, and each is a chunk position or `-1`. |
| Pipeline.PaddingPicksLast | graph.py:49-51 | With fewer than 3 chunks, every padded place of the context holds the last chunk, as `chunks[-1]` does. |
| Pipeline.SingleChunkContext | graph.py:49-51 | A one-chunk document gives the context `c + "\n\n" + c + "\n\n" + c`. |
| Pipeline.RetrievedRanked | graph.py:49-51 | With at least 3 chunks, the 3 labels are distinct chunk positions in non-decreasing distance, and no chunk left out is nearer than a retrieved one. |
| Pipeline.PromptCarries | graph.py:54-60 | The request uses model `gpt-4o-mini` and has two messages: the fixed system instruction, then a user message that is exactly `"Context:\n" + ctx + "\n\nQuestion: " + query`. |
| Pipeline.RagState.constructor | graph.py:80-81 | The initial state holds only the text and the query. |
| Pipeline.RagState.ChunkNode | graph.py:26-28 | `chunk_node` sets the chunks to `chunk_text(text)` with the default size and changes nothing else. |
| Pipeline.RagState.EmbedNode | graph.py:31-43 | `embed_node` does four things. It substitutes `[text[:1000]]` for an empty chunk list. It stores one vector per chunk. It builds a fresh index holding those vectors, all of one dimension. It leaves the text, query and answer alone. |
| Pipeline.RagState.AnswerNode | graph.py:46-64 | `answer_node` searches the 3 nearest chunks and joins them with `"\n\n"` in rank order. It sends the prompt, sets the answer only on success, and leaves the text, query, chunks, vectors and index unchanged. |
| Pipeline.RunRagSync | graph.py:67-82 | Running the nodes in graph order gives exactly the pipeline function `RagAnswer`. On success the state's answer is the reply; on failure it is unset. |
| App.Chat | app.py:280-298 | The `/chat` route on its two stripped fields; its properties are the four lemmas below. |
| App.ChatRejectsBlankMessage | app.py:282-287 | `/chat` returns an error exactly when the message is blank, and then the error is `"message required"` with status 400, whatever the document. |
| App.ChatWithoutDocument | app.py:289-291 | A usable message with a blank document gets the fixed answer `"Please extract or upload a document first."`. |
| App.ChatFoldsErrors | app.py:293-298 | Otherwise the pipeline runs on the stripped inputs. The reply is its answer, or `"ERROR: " + e` for its exception, never an error status. |
| App.ChatNeverFallsBack | app.py:283-294 | A document that reaches the pipeline from `/chat` always yields at least one chunk, so the `text[:1000]` fallback of `embed_node` is never taken on this route. |
| App.ExtractPdfSpec | app.py:162-256 | The `/extract_pdf` reply as a function; `ExtractPdf` is proved equal to it. |
| App.OcrRequested | app.py:175 | The `ocr` form field lowered and compared with `"true"`; its property is `OcrFlag`. |
| App.ExtractPage | app.py:178-200 | The single-page branch; its properties are `PageBounds`, `PageTooLong` and `PageOcrOnlyWhenBlank`. |
| App.PageText | app.py:192-197 | The text of one page: OCR when the page yields nothing and OCR was requested, otherwise `text or ""`; its property is `PageOcrOnlyWhenBlank`. |
| App.NothingFound | app.py:193 | `not text or not text.strip()`; it decides `PageOcrOnlyWhenBlank`. |
| App.OrEmpty | app.py:197 | `text or ""`; it is the reply text in `PageOcrOnlyWhenBlank`. |
| App.RangeBounds | app.py:207-213 | The checks on the two parsed parts of a range; its property is `BoundsNeedNumbers`. |
| App.RangeTexts | app.py:218-229 | The value of the page-range loop; its properties are `RangeTextsShape`, `RangeTextsSucceed`, `RangeFailureStays`, and `CollectRange` is proved equal to it. |
| App.OcrAll | app.py:247-250 | The value of the whole-document OCR loop; its properties are `OcrAllShape` and `OcrFailureStays`, and `FullOcr` is proved equal to it. |
| App.ParseRange | app.py:203-213 | The validation of the `range` field; its properties are the range lemmas below. |
| App.ExtractRange | app.py:203-234 | The range branch; its properties are `RangeTextsShape`, `RangeTextsSucceed` and `EmptyClampedRange`. |
| App.ExtractFull | app.py:236-256 | The whole-document branch; its properties are `FullOcrOnlyWhenNoText` and `OcrAllShape`. |
| App.ExtractPdf | app.py:162-256 | The route's checks and branches, in their order, give exactly the reply `ExtractPdfSpec` describes. |
| App.CollectRange | app.py:218-229 | The page loop returns one text per page of the clamped range, in order: OCR when the page is blank and OCR is on, else `t or ""`. It stops at the first failure. |
| App.FullOcr | app.py:246-250 | The whole-document OCR loop returns the OCR of pages `1..n` in order, or the first failure. |
| App.RangeFailureStays | app.py:224-234 | A failure on an earlier page is the failure of the whole range. |
| App.OcrFailureStays | app.py:248-254 | A failure on an earlier page is the failure of the whole OCR pass. |
| App.PageTakesPrecedence | app.py:178-203 | When `page` is non-empty, the `range` field never affects the reply. |
| App.PageBounds | app.py:179-190 | `"page must be numeric"` is returned exactly when `int(page)` fails, the digit limit included. `"page out of range"` is returned exactly when `p < 1` or `p > total`. |
| App.PageTooLong | app.py:179-182 | A page field of more than 4300 ASCII digits gets `"page must be numeric"`, whatever the document. |
| App.RangeNeedsDash | app.py:204-205 | `"Range must be 'start-end'"` is returned exactly when the range has no `-`. |
| App.RangeNeedsNumbers | app.py:207-210 | `"Range must be numeric"` is returned exactly when one of the two parts around the first `-` fails `int()` after stripping, the digit limit included. |
| App.RangeOrdered | app.py:212-213 | An accepted range never has its start after its end. |
| App.FirstDashAfter | app.py:208 | The first `-` of `a + "-" + b` is the one after `a` when `a` has none. |
| App.BoundsNeedNumbers | app.py:207-213 | Once the parts are parsed, `"Range must be numeric"` is returned exactly when one of them failed, and `"Start cannot be greater than end"` exactly when both parsed and the start is larger. |
| App.ParseRangeAccepts | app.py:207-213 | A range is accepted with bounds `(a, b)` when both stripped parts parse, to `a` and `b`, and `a <= b`. |
| App.ParseRangeRoundTrip | app.py:204-213 | `"a-b"` for ASCII digit strings `a <= b` of at most 4300 digits each is accepted with their decimal values. |
| App.RangeTooLong | app.py:207-210 | `"a-b"` for ASCII digit strings is refused as `"Range must be numeric"` once either has more than 4300 digits. |
| App.RangeTextsShape | app.py:220-231 | A successful range has one text per page of the clamped range, page `lo + j` giving text `j`. |
| App.OcrAllShape | app.py:246-251 | The whole-document OCR pass succeeds exactly when every page's OCR does. On success it has one text per page, page `j + 1` giving text `j`. |
| App.RangeTextsSucceed | app.py:224-229 | If every page in the range succeeds, the range succeeds. |
| App.EmptyClampedRange | app.py:220-231 | A range that ends before page 1 or starts after the last page gives the text `""`. |
| App.PageOcrOnlyWhenBlank | app.py:192-197 | OCR is consulted for a page only when the page yields nothing and OCR was requested. |
| App.FullOcrOnlyWhenNoText | app.py:243-256 | Whole-document OCR and the page count are used only when the text is `""` or `"NO_TEXT_FOUND_PDF"` and OCR was requested; otherwise the text is returned. |
| App.OcrFlag | app.py:175 | The OCR flag is set exactly when the field has four characters that are `t`, `r`, `u` and `e`, each in either case. |
| App.LowerCharIs | app.py:175 | `lower()` maps exactly an ASCII lower-case letter and its upper-case form to that letter. |
| App.Upload | app.py:64-136 | The `/upload` route; its properties are the lemmas below. |
| App.UploadUnsupported | app.py:77-136 | `"Unsupported file type"` is returned exactly when the secured, lower-cased name ends with no image, PDF or text suffix. |
| App.UploadPdfDefaultsToOnePage | app.py:96-119 | A PDF whose page count cannot be read reports 1 page and no extracted text. |
| App.UploadPagesOnlyForPdf | app.py:84-133 | A successful reply has a `pages` key exactly when the file is a PDF. |
| App.SuffixClassesDisjoint | app.py:80-122 | No name ends with suffixes of two classes, so the order of the tests changes no verdict. |
| App.UploadIgnoresCase | app.py:77 | Names that agree after `lower()` get the same kind of reply. |

## Left out

- I/O and services are not modelled. This covers Flask, request parsing, logging, CORS, `asyncio`, langgraph's scheduler, the OpenAI client and the sentence-transformer model. Embedding and completion are function parameters.
- Floating point is not modelled. Vectors are sequences of reals, so the `float32` cast and FAISS's floating-point ranking are not represented.
- FAISS internals are not modelled: its heap-based search and its own tie order. The model breaks ties by the lower label.
- Search does not model the `+inf` distances FAISS returns for padded places: the model returns distances only for real hits, and the code never reads `D`.
- Embedding failures are not modelled. The embedder is a total function, so an exception from `encode` is not represented. Such an exception would reach the same `"ERROR: "` fold in `/chat`.
- A completion whose content is `None` is not modelled: the completion returns a string or an error.
- OCR content that is `None` is not modelled: `ocr_sync` returns `message.content`, which can be `None`, but `PageOcr` and `imageOcr` return a string or an error. In the source, a `None` becomes `""` on the page and range paths, makes the `"\n\n".join` of the whole-document pass raise (a 500 `"OCR error: ..."` reply), and gives `"extracted": null` in `/upload`.
- `PdfSource` allows more than the source does. Its `fullText` and `pageCount` failures never happen, because `extract_text_from_pdf_bytes` and `pdf_page_count` catch every exception and return the sentinel or 0 instead.
- Non-string JSON values are not modelled. The `/chat` payload fields are strings, and a missing or null field is `""`.
- `int()`'s digit limit is the CPython default of 4300. A limit changed with `sys.set_int_max_str_digits` or `PYTHONINTMAXSTRDIGITS` is not modelled, and neither is a Python older than 3.11 (or 3.10.7, 3.9.14, 3.8.14), which has no limit.
- `int()` on non-ASCII decimal digits is not modelled. Python's `int` also accepts them; the model accepts only `0`-`9`.
- `Lower` lowers only ASCII letters. It is compared only against ASCII strings, and no non-ASCII character lowers to an ASCII letter other than U+0130 and U+212A.
- Exceptions from pdfplumber's per-page `extract_text()` are not modelled. A page yields a string or nothing.
- Exceptions from opening the file are modelled, as the error of the `pages` source.
- `secure_filename`, `pdfinfo_from_bytes`, `pdf_page_count`, the page renderer and `ocr_sync` are parameters. `pdf_utils.py`, `ocr_utils.py` and `file_utils.py` are not part of this model. Only the `"NO_TEXT_FOUND_PDF"` sentinel is taken from `pdf_utils.py`.
- `pdfPages` has type `Option<nat>`, so the model does not capture a page count below zero, which `int(info.get("Pages", 1))` could in principle produce.
- The `/`, `/preview_pdf_page` and `/ocr` routes are not part of this model. Neither are `MAX_CONTENT_LENGTH`, the `__main__` port selection and `static/app.js`.
- The `f.filename or "unnamed"` default in `/upload` (app.py:72) is not modelled because it is dead code. An upload with an empty file name is already refused as `"No file uploaded"`, since such a file object is falsy.
- Chunker.ChunkText: requires `size > 0`. Python raises for `size == 0` and returns `[]` for a negative size. Callers in this code always use the default 300.
- FlatL2.SqDist: states only that the distance is non-negative and that a vector is at distance zero from itself. The converse, that distance zero means equal vectors, is not proved; it needs nonlinear reasoning over the reals.
- Pipeline.RunRagSync: returns the state even when the completion failed. Python raises instead, and `/chat` catches the exception, so the outcome's error stands for that exception.

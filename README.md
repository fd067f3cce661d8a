# Document translator: a Dafny model

The application is a one-page web service. A user uploads a word-processing
(`.docx`) or PDF document and picks a target language. The service translates
the document's text through an external translation service and sends the
translated document back as `translated_<filename>`.

This project models the sequential core of `app.py` and proves what it does:

- `Text` (`text.dfy`): the Python string operations the core relies on.
  These are `str.isspace`, `str.strip`, `str.lower`, `str.endswith` and the
  tail of `rsplit('.', 1)`.
- `Upload` (`upload.dfy`): the upload validator `allowed_file`.
- `Translation` (`translation.dfy`): `translate_text`. The external service
  is a function parameter that either returns a translation or raises. The
  wrapper falls back to the original text when the service raises.
- `Docx` (`docx.dfy`): the `process_docx` loop. It rewrites an array of
  paragraph texts in place and skips the paragraphs whose stripped text is
  empty.
- `Pdf` (`pdf.dfy`): the `process_pdf` loop. It accumulates each page's
  translation plus a blank line. The output is one page, sized like the
  first input page.
- `App` (`app.dfy`): the `index` handler. `Index` is the handler as a
  decision over the request fields. `HandleRequest` runs the two imperative
  pipelines and is proved equal to `Index`.

The format libraries are parameters, like the translation service. Opening a
DOCX gives its paragraph texts, and opening a PDF gives its pages (text and
size). `None` stands for a library that raises on the input.

Behaviour worth knowing:

- An accepted name with an upper-case extension, such as `X.PDF`, passes
  validation. It then matches neither case-sensitive dispatch test and gets
  the upload form back, not an attachment.
- A document the format library cannot open, or a PDF with no pages, makes
  the handler raise. The framework answers that with status 500, not with a
  client error.
- With a service that always fails, a DOCX comes back with its paragraphs
  unchanged. A PDF comes back as one page holding every page's own text,
  each followed by a blank line, not as the original document.

## Model

| member | source | states |
|---|---|---|
| `Text.IsSpace` | app.py:40 | Python's whitespace set; no visible ASCII character (letter, digit, punctuation, '.') is whitespace |
| `Text.TrimStart` | app.py:40 | The result is a suffix of the input; everything removed is whitespace; the result does not start with whitespace |
| `Text.TrimEnd` | app.py:40 | The result is a prefix of the input; everything removed is whitespace; the result does not end with whitespace |
| `Text.Strip` | app.py:40 | `s.strip()` is empty exactly when every character of `s` is whitespace; otherwise it starts and ends with a non-whitespace character |
| `Text.StripIsSlice` | app.py:40 | Independent description of `s.strip()`: it is the slice `s[i..j]` whenever only whitespace lies outside the slice and the slice is empty or has non-whitespace ends |
| `Text.LowerChar` | app.py:26 | Lower-casing one character never yields an upper-case ASCII letter, yields a lower-case letter exactly for a letter, and yields '.' exactly for '.' |
| `Text.Lower` | app.py:26 | The model's lower-casing (ASCII letters only, see Left out) keeps the length and lower-cases each character on its own |
| `Text.EndsWithConcat` | app.py:79-82 | `s.endswith(suffix)` holds exactly when `s` is some text followed by `suffix`; it is case-sensitive |
| `Text.AfterLastDot` | app.py:26 | `rsplit('.', 1)[1]` is a dot-free suffix of the name that is preceded by a '.' |
| `Text.AfterLastDotOfSplit` | app.py:26 | For any prefix and a dot-free extension, the text after the last '.' of `prefix + "." + ext` is exactly `ext` |
| `Upload.AllowedFile` | app.py:25-26 | `allowed_file`: a name holding a '.' whose last part, lower-cased, is `pdf` or `docx`; an accepted name holds a '.' and is at least as long as `.pdf` |
| `Upload.LowerIdentity` | app.py:26 | Lower-casing leaves text without upper-case ASCII letters unchanged, so `pdf` and `docx` are their own lower case |
| `Upload.LowerSlice` | app.py:26 | Lower-casing commutes with slicing, so the last part of the lower-cased name is the lower-cased last part |
| `Upload.LowerKeepsDots` | app.py:26 | Lower-casing neither adds nor removes a '.' |
| `Upload.AllowedFileOfSplit` | app.py:25-26 | A name `prefix.ext`, with `ext` dot-free, is accepted exactly when `ext` lower-cased is `pdf` or `docx`; the prefix plays no part |
| `Upload.AllowedFileIffLowerSuffix` | app.py:25-26 | Independent characterisation: a name is accepted exactly when, lower-cased, it ends in `.pdf` or `.docx`; in particular a name without '.' is refused |
| `Upload.SuffixAllowed` | app.py:25-26 | A name ending in '.' and an allowed extension, as written, is accepted |
| `Upload.ExactSuffixIsAllowed` | app.py:79-82 | Every name that the handler's case-sensitive `endswith('.docx')` or `endswith('.pdf')` selects also passes the validator |
| `Upload.DoubledExtensionExample` | app.py:26 | `a.tar.DOCX` is accepted: only the last part counts, and case does not matter |
| `Upload.BareAndUpperCaseExtensionExamples` | app.py:26 | `.pdf` and `X.PDF` are accepted |
| `Upload.RejectedExamples` | app.py:26 | `docx.txt` and `docx` are refused |
| `Translation.TranslateText` | app.py:28-35 | The result is the service's translation when the call succeeds and the input text when it raises; it never fails itself |
| `Translation.TranslateTextPassthrough` | app.py:33-35 | With a service that always raises, every text comes back unchanged |
| `Docx.BlankIffStripEmpty` | app.py:40 | A paragraph is blank exactly when `para.text.strip()` is empty |
| `Docx.TranslateParagraph` | app.py:40-42 | One paragraph: kept as it is when its stripped text is empty, translated otherwise; kept whatever it is when the service always raises |
| `Docx.TranslatedParagraphs` | app.py:39-42 | The pipeline keeps the number of paragraphs |
| `Docx.TranslatedParagraphsAt` | app.py:39-42 | Slot `i` of the output comes from slot `i` of the input: order is kept, all-whitespace slots are untouched, other slots are translated |
| `Docx.TranslatedParagraphsPassthrough` | app.py:39-42 | With a service that always raises, the output paragraphs equal the input paragraphs |
| `Docx.TranslateSlot` | app.py:40-42 | One loop step: the paragraph at `i` becomes its own text if `strip()` leaves nothing (all whitespace), its translation otherwise; every other paragraph is unchanged |
| `Docx.ProcessDocx` | app.py:37-42 | The in-place loop leaves the array equal to the paragraph-by-paragraph translation of its old contents |
| `Docx.BlankBetweenTwoParagraphs` | app.py:39-42 | A blank paragraph between two others, as in `["Hello world", "", "Goodbye"]`, stays as it is while the other two are translated |
| `Pdf.PageUnit` | app.py:52-53 | What one page adds: its translation followed by the two-character blank line; its own text and the blank line when the service always raises |
| `Pdf.PlainText` | app.py:51-53 | The pages' own text, each followed by a blank line: at least two characters a page, starting with the first page's text |
| `Pdf.CombinedText` | app.py:50-53 | No page is skipped: every page, even an empty one, adds at least the two-character blank line |
| `Pdf.CombinedTextAppend` | app.py:51-53 | Appending a page appends exactly its translation and a blank line, in page order |
| `Pdf.CombinedTextEndsWithSeparator` | app.py:51-53 | With at least one page, the accumulated text ends in `"\n\n"` |
| `Pdf.CombinedTextPassthrough` | app.py:51-53 | With a service that always raises, the accumulated text is each page's own text followed by a blank line |
| `Pdf.TranslatedPdf` | app.py:56-58 | A rebuilt document exists exactly when the input has a page; it has one page, sized like the first input page |
| `Pdf.ProcessPdf` | app.py:48-58 | The accumulator loop and rebuild produce exactly the single-page document of the accumulated translations, or nothing for a document without pages |
| `App.Status` | app.py:64-86 | Status 400 exactly for the client errors and 500 exactly for an exception escaping the handler |
| `App.DownloadName` | app.py:81-84 | The download name is `translated_` followed by the whole uploaded name, which it therefore ends with |
| `App.Index` | app.py:64-86 | GET gives the form; a missing `file` part gives "No file part"; an empty or refused name gives "Invalid file type or no file selected"; an attachment is always named `translated_<filename>` and only for an exact `.docx`/`.pdf` suffix; an accepted name with neither exact suffix gives the form |
| `App.HandleRequest` | app.py:64-86 | Running the handler, with the in-place DOCX loop and the PDF accumulator, gives exactly the outcome `Index` decides |
| `App.DocxUpload` | app.py:79-81 | An opened `.docx` upload is answered with the translated paragraphs under `translated_<filename>` |
| `App.PdfUpload` | app.py:82-84 | An opened `.pdf` upload with pages is answered with one page, sized like the first, holding the accumulated translations, under `translated_<filename>` |
| `App.EmptyPdfUpload` | app.py:57 | A `.pdf` upload without pages makes the handler raise |
| `App.UnopenableDocxUpload` | app.py:79-80 | A `.docx` upload that the word-processing library cannot open makes the handler raise, answered with status 500 |
| `App.UnopenablePdfUpload` | app.py:82-83 | A `.pdf` upload that the PDF library cannot open makes the handler raise, answered with status 500 |
| `App.EmptyFilenameRefused` | app.py:73-74 | An empty file name gets status 400 "Invalid file type or no file selected" |
| `App.UpperCaseExtensionFallsThrough` | app.py:77-86 | `X.PDF` passes validation but falls through to the upload form |
| `App.FailingServiceDocxPassthrough` | app.py:33-46 | With a service that always raises, a `.docx` upload comes back under `translated_<filename>` with exactly its own paragraphs |
| `App.FailingServicePdfPassthrough` | app.py:33-58 | With a service that always raises, a `.pdf` upload comes back as one page, sized like the first, holding each page's own text followed by a blank line |

## Left out

- HTTP plumbing: Flask routing, `request`, `send_file` (MIME type, streaming) and `render_template`. The model returns an outcome instead; the form outcome carries only the language list.
- The translation service: it is a network call. It is one fixed function of the text and the target language here, so two calls with equal text in one request get the same answer, and a transient failure of only one of them is not represented. The client constructor `Translator()` (app.py:29) runs outside the `try`; it is assumed not to raise. The log line printed on failure is not modelled.
- Text.Lower: maps only the ASCII letters A–Z and keeps the length. Python's `str.lower` maps every cased Unicode letter, and does not always keep the length: LATIN CAPITAL LETTER I WITH DOT ABOVE (U+0130) becomes two characters, `i` and a combining dot above. The validator accepts the same names either way. Python's `lower()` never adds or removes a '.', and no non-ASCII character lower-cases to text holding `p`, `d`, `f`, `o`, `c` or `x` (KELVIN SIGN gives `k`, U+0130 gives `i` and the dot).
- The format libraries: opening a document and extracting its text are parameters (`App.Codecs`: `openDocx` gives the paragraph texts, `openPdf` the pages). Saving is not modelled: the answer carries the paragraph texts or the pages themselves, not the serialised bytes in a `BytesIO` buffer. Assigning a DOCX paragraph's text also drops its run formatting; only the text is modelled.
- The PDF layout: text placed at (72, 72) in 12-point type, with clipping at the page edge. The page dimensions are floating point; they are reals that are only copied.
- The second guard `if file and allowed_file(...)` (app.py:77): it always holds at that point. A file part is truthy exactly when its name is non-empty, and the line before has already returned otherwise. It is not a separate branch.
- A file part whose filename is missing (`None`): filenames are strings here.
- `app.run(debug=True)`: process startup.

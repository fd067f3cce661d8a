/** The request handler of the upload page: validate the upload, dispatch on
    its extension to the matching pipeline, and answer with the translated
    document as an attachment. HTTP plumbing is reduced to the request fields
    the handler reads and to the outcome it returns. */
module App {
  import opened Wrappers
  import opened Text
  import opened Upload
  import opened Translation
  import Docx
  import Pdf

  /** The HTTP methods the route accepts. */
  datatype HttpMethod = GET | POST

  /** An uploaded file part: the name the client gave it and its bytes. */
  datatype FileUpload = FileUpload(filename: string, data: seq<bv8>)

  /** The fields of a request that the handler reads: the method, the `file`
      part (absent or present) and the `language` form field. */
  datatype Request = Request(verb: HttpMethod, file: Option<FileUpload>, language: Language)

  /** The format libraries, seen as functions from bytes to the opened
      document; `None` when the library raises on the input. */
  datatype Codecs = Codecs(
    openDocx: seq<bv8> -> Option<seq<string>>,
    openPdf: seq<bv8> -> Option<seq<Pdf.Page>>)

  /** The document sent back. */
  datatype Body = DocxBody(paragraphs: seq<string>) | PdfBody(pages: seq<Pdf.Page>)

  /** What the handler answers: a plain-text client error, a file attachment,
      an exception that escapes the handler, or the upload form. */
  datatype Response =
    | BadRequest(message: string)
    | Attachment(downloadName: string, body: Body)
    | Unhandled
    | UploadForm(languages: seq<(string, string)>)

  /** The language codes and names the form offers. */
  const Languages: seq<(string, string)> := [
    ("en", "English"), ("es", "Spanish"), ("fr", "French"), ("de", "German"),
    ("it", "Italian"), ("pt", "Portuguese"), ("ru", "Russian"), ("zh-cn", "Chinese")]

  const NoFilePart: string := "No file part"
  const InvalidFile: string := "Invalid file type or no file selected"

  /** The HTTP status of each outcome; an exception escaping the handler is
      answered by the framework with 500. */
  function Status(r: Response): (code: int)
    ensures code == 400 <==> r.BadRequest?
    ensures code == 500 <==> r.Unhandled?
  {
    match r
    case BadRequest(_) => 400
    case Attachment(_, _) => 200
    case Unhandled => 500
    case UploadForm(_) => 200
  }

  /** The name under which the translated document is offered for download. */
  function DownloadName(filename: string): (r: string)
    ensures |r| == |"translated_"| + |filename|
    ensures r[..|"translated_"|] == "translated_"
    ensures EndsWith(r, filename)
  {
    "translated_" + filename
  }

  /** The handler, as a decision over the request fields. */
  function Index(req: Request, codecs: Codecs, translate: Translator): (r: Response)
    ensures req.verb.GET? ==> r == UploadForm(Languages)
    ensures r == BadRequest(NoFilePart) <==> req.verb.POST? && req.file.None?
    ensures r == BadRequest(InvalidFile) <==>
            req.verb.POST? && req.file.Some? && !AllowedFile(req.file.value.filename)
    ensures r.Attachment? ==>
            req.verb.POST? && req.file.Some? &&
            r.downloadName == DownloadName(req.file.value.filename) &&
            (EndsWith(req.file.value.filename, ".docx") || EndsWith(req.file.value.filename, ".pdf"))
    ensures r.UploadForm? ==>
            req.verb.GET? ||
            (req.verb.POST? && req.file.Some? && AllowedFile(req.file.value.filename) &&
             !EndsWith(req.file.value.filename, ".docx") && !EndsWith(req.file.value.filename, ".pdf"))
    ensures (req.verb.POST? && req.file.Some? && AllowedFile(req.file.value.filename) &&
             !EndsWith(req.file.value.filename, ".docx") && !EndsWith(req.file.value.filename, ".pdf"))
            ==> r.UploadForm?
  {
    if !req.verb.POST? then UploadForm(Languages)
    else
      match req.file
      case None => BadRequest(NoFilePart)
      case Some(file) =>
        if file.filename == "" || !AllowedFile(file.filename) then BadRequest(InvalidFile)
        else if EndsWith(file.filename, ".docx") then
          match codecs.openDocx(file.data)
          case None => Unhandled
          case Some(paragraphs) =>
            Attachment(DownloadName(file.filename),
                       DocxBody(Docx.TranslatedParagraphs(translate, req.language, paragraphs)))
        else if EndsWith(file.filename, ".pdf") then
          match codecs.openPdf(file.data)
          case None => Unhandled
          case Some(pages) =>
            match Pdf.TranslatedPdf(translate, req.language, pages)
            case None => Unhandled
            case Some(translated) => Attachment(DownloadName(file.filename), PdfBody(translated))
        else UploadForm(Languages)
  }

  /** The handler as it runs: the word-processing pipeline rewrites the opened
      document's paragraphs in place, the PDF pipeline accumulates its text. */
  method HandleRequest(req: Request, codecs: Codecs, translate: Translator) returns (r: Response)
    ensures r == Index(req, codecs, translate)
  {
    if req.verb.POST? {
      if req.file.None? {
        return BadRequest(NoFilePart);
      }
      var file := req.file.value;
      var target := req.language;
      if file.filename == "" || !AllowedFile(file.filename) {
        return BadRequest(InvalidFile);
      }
      var filename := file.filename;
      if EndsWith(filename, ".docx") {
        var doc := codecs.openDocx(file.data);
        if doc.None? {
          return Unhandled;
        }
        var paragraphs := new string[|doc.value|](i requires 0 <= i < |doc.value| => doc.value[i]);
        assert paragraphs[..] == doc.value;
        Docx.ProcessDocx(paragraphs, translate, target);
        r := Attachment(DownloadName(filename), DocxBody(paragraphs[..]));
        assert r == Index(req, codecs, translate);
        return;
      } else if EndsWith(filename, ".pdf") {
        var doc := codecs.openPdf(file.data);
        if doc.None? {
          return Unhandled;
        }
        var translated := Pdf.ProcessPdf(doc.value, translate, target);
        if translated.None? {
          return Unhandled;
        }
        return Attachment(DownloadName(filename), PdfBody(translated.value));
      }
    }
    return UploadForm(Languages);
  }

  /** A word-processing upload that opens is answered with its paragraphs
      translated in place, under the name `translated_<filename>`. */
  lemma DocxUpload(req: Request, codecs: Codecs, translate: Translator, paragraphs: seq<string>)
    requires req.verb.POST? && req.file.Some?
    requires EndsWith(req.file.value.filename, ".docx")
    requires codecs.openDocx(req.file.value.data) == Some(paragraphs)
    ensures Index(req, codecs, translate) ==
            Attachment("translated_" + req.file.value.filename,
                       DocxBody(Docx.TranslatedParagraphs(translate, req.language, paragraphs)))
  {
    ExactSuffixIsAllowed(req.file.value.filename);
  }

  /** A PDF upload that opens and has pages is answered with one page, sized
      like its first page, holding the accumulated translations. */
  lemma PdfUpload(req: Request, codecs: Codecs, translate: Translator, pages: seq<Pdf.Page>)
    requires req.verb.POST? && req.file.Some?
    requires EndsWith(req.file.value.filename, ".pdf")
    requires codecs.openPdf(req.file.value.data) == Some(pages) && pages != []
    ensures Index(req, codecs, translate) ==
            Attachment("translated_" + req.file.value.filename,
                       PdfBody([Pdf.Page(Pdf.CombinedText(translate, req.language, pages), pages[0].size)]))
  {
    var filename := req.file.value.filename;
    ExactSuffixIsAllowed(filename);
  }

  /** A PDF that opens but has no pages makes the handler raise: there is no
      first page to take the dimensions from. */
  lemma EmptyPdfUpload(req: Request, codecs: Codecs, translate: Translator)
    requires req.verb.POST? && req.file.Some?
    requires EndsWith(req.file.value.filename, ".pdf")
    requires codecs.openPdf(req.file.value.data) == Some([])
    ensures Index(req, codecs, translate) == Unhandled
  {
    var filename := req.file.value.filename;
    ExactSuffixIsAllowed(filename);
  }

  /** A word-processing upload its format library cannot open makes the
      handler raise. */
  lemma UnopenableDocxUpload(req: Request, codecs: Codecs, translate: Translator)
    requires req.verb.POST? && req.file.Some?
    requires EndsWith(req.file.value.filename, ".docx")
    requires codecs.openDocx(req.file.value.data).None?
    ensures Index(req, codecs, translate) == Unhandled
    ensures Status(Index(req, codecs, translate)) == 500
  {
    ExactSuffixIsAllowed(req.file.value.filename);
  }

  /** A PDF upload its format library cannot open makes the handler raise. */
  lemma UnopenablePdfUpload(req: Request, codecs: Codecs, translate: Translator)
    requires req.verb.POST? && req.file.Some?
    requires EndsWith(req.file.value.filename, ".pdf")
    requires codecs.openPdf(req.file.value.data).None?
    ensures Index(req, codecs, translate) == Unhandled
    ensures Status(Index(req, codecs, translate)) == 500
  {
    ExactSuffixIsAllowed(req.file.value.filename);
  }

  /** An empty file name is refused as an invalid upload. */
  lemma EmptyFilenameRefused(req: Request, codecs: Codecs, translate: Translator)
    requires req.verb.POST? && req.file.Some? && req.file.value.filename == ""
    ensures Index(req, codecs, translate) == BadRequest(InvalidFile)
    ensures Status(Index(req, codecs, translate)) == 400
  {
  }

  /** An accepted name with an upper-case extension, such as `X.PDF`, matches
      neither case-sensitive dispatch test and falls through to the form. */
  lemma UpperCaseExtensionFallsThrough(codecs: Codecs, translate: Translator, data: seq<bv8>, target: Language)
    ensures Index(Request(POST, Some(FileUpload("X.PDF", data)), target), codecs, translate) ==
            UploadForm(Languages)
  {
    BareAndUpperCaseExtensionExamples();
    assert !EndsWith("X.PDF", ".pdf") by {
      assert "X.PDF"[4] != ".pdf"[3];
    }
  }

  /** With a service that always raises, a word-processing upload comes back
      with its own paragraphs. */
  lemma FailingServiceDocxPassthrough(req: Request, codecs: Codecs, translate: Translator, paragraphs: seq<string>)
    requires AlwaysRaises(translate)
    requires req.verb.POST? && req.file.Some?
    requires EndsWith(req.file.value.filename, ".docx")
    requires codecs.openDocx(req.file.value.data) == Some(paragraphs)
    ensures Index(req, codecs, translate) ==
            Attachment("translated_" + req.file.value.filename, DocxBody(paragraphs))
  {
    DocxUpload(req, codecs, translate, paragraphs);
    Docx.TranslatedParagraphsPassthrough(translate, req.language, paragraphs);
  }

  /** With a service that always raises, a PDF upload comes back as one page
      holding its pages' own text, each followed by a blank line. */
  lemma FailingServicePdfPassthrough(req: Request, codecs: Codecs, translate: Translator, pages: seq<Pdf.Page>)
    requires AlwaysRaises(translate)
    requires req.verb.POST? && req.file.Some?
    requires EndsWith(req.file.value.filename, ".pdf")
    requires codecs.openPdf(req.file.value.data) == Some(pages) && pages != []
    ensures Index(req, codecs, translate) ==
            Attachment("translated_" + req.file.value.filename,
                       PdfBody([Pdf.Page(Pdf.PlainText(pages), pages[0].size)]))
  {
    PdfUpload(req, codecs, translate, pages);
    Pdf.CombinedTextPassthrough(translate, req.language, pages);
  }
}

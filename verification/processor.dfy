/** `DocumentProcessor`: the size check, the dispatch on the file name's
    suffix, the PDF pipeline of text, images and tables, and the wrapping of
    every failure into one prefixed message. The libraries' work on the
    uploaded bytes is given as a `Libraries` value. */
module Processor {
  import opened Wrappers
  import opened Text
  import opened Base64
  import opened Layout
  import opened Images
  import opened Tables
  import opened PlainText
  import opened Basic

  /** The first slot of the result: the text of a text or Word file, or the
      layout pages of a PDF. */
  datatype Content = TextContent(text: string) | PdfContent(pages: seq<PageContent>)

  /** The four slots of the returned tuple: content, images, tables, plain text. */
  datatype Output = Output(content: Content, images: seq<ImageRecord>, tables: seq<Frame>, plain: string)

  /** What the libraries make of the uploaded bytes, each either a value or the
      message of the exception raised:
      - utf8: the UTF-8 decoding of the bytes;
      - docx: the text docx2txt extracts from the Word file;
      - layout: the "blocks" of every page of the document PyMuPDF opens;
      - images: for every page, the outcome of `extract_image` per reference;
      - camelot: the frames of the tables `camelot.read_pdf` finds;
      - pageTexts: the text PyPDF2 extracts from each page it reads. */
  datatype Libraries = Libraries(
    utf8: Result<string, string>,
    docx: Result<string, string>,
    layout: Result<seq<RawPage>, string>,
    images: Result<seq<PageImages>, string>,
    camelot: Result<seq<Frame>, string>,
    pageTexts: Result<seq<string>, string>)

  /** The default `max_doc_size`: 50 MiB. */
  const DefaultMaxDocSize: nat := 50 * 1024 * 1024

  const ErrorPrefix: string := "Error processing file: "
  const TooLarge: string := "File too large (max 50MB)"
  const Unsupported: string := "Unsupported file type"

  /** `_extract_text_with_layout`. */
  function ExtractText(libs: Libraries): Result<seq<PageContent>, string> {
    match libs.layout
    case Err(e) => Err("Error in PDF text extraction: " + e)
    case Ok(doc) => Ok(ExtractLayout(doc))
  }

  /** `_extract_images`: failures of single images are skipped inside
      `ImageRecords`; only a document that does not open fails here. */
  function ExtractImageRecords(libs: Libraries): Result<seq<ImageRecord>, string> {
    match libs.images
    case Err(e) => Err("Error extracting images: " + e)
    case Ok(pages) => Ok(ImageRecords(pages))
  }

  /** `_extract_tables`: Camelot when it is available, the tokeniser otherwise. */
  function ExtractTables(libs: Libraries, camelotAvailable: bool): Result<seq<Frame>, string> {
    var r := if camelotAvailable then
               match libs.camelot case Err(e) => Err(e) case Ok(fs) => Ok(CleanTables(fs))
             else
               match libs.pageTexts case Err(e) => Err(e) case Ok(ts) => Ok(BasicTables(ts));
    Rewrap("Error extracting tables: ", r)
  }

  /** `_process_pdf`: text first, then images, then tables; the first failure
      is the one reported. */
  function ProcessPdf(libs: Libraries, camelotAvailable: bool): Result<Output, string> {
    var content :- ExtractText(libs);
    var images :- ExtractImageRecords(libs);
    var tables :- ExtractTables(libs, camelotAvailable);
    Ok(Output(PdfContent(content), images, tables, Plain(content)))
  }

  /** The branches of `process_document` after the size check, on the
      lower-cased file name. */
  function Dispatch(name: string, libs: Libraries, camelotAvailable: bool): Result<Output, string> {
    if EndsWith(name, ".pdf") then ProcessPdf(libs, camelotAvailable)
    else if EndsWith(name, ".txt") || EndsWith(name, ".md") then
      match libs.utf8
      case Err(e) => Err(e)
      case Ok(s) => Ok(Output(TextContent(s), [], [], s))
    else if EndsWith(name, ".docx") then
      match libs.docx
      case Err(e) => Err(e)
      case Ok(s) => Ok(Output(TextContent(s), [], [], s))
    else Err(Unsupported)
  }

  predicate Supported(name: string) {
    EndsWith(name, ".pdf") || EndsWith(name, ".txt") || EndsWith(name, ".md") || EndsWith(name, ".docx")
  }

  /** `process_document(contents, filename)` on a processor built with
      `max_doc_size == maxDocSize`. */
  function ProcessDocument(contents: seq<byte>, filename: string, maxDocSize: nat,
                           camelotAvailable: bool, libs: Libraries): (r: Result<Output, string>)
    ensures |contents| > maxDocSize ==> r == Err(ErrorPrefix + TooLarge)
    ensures r.Err? ==> StartsWith(r.error, ErrorPrefix)
    ensures r.Ok? ==> |contents| <= maxDocSize && Supported(Lower(filename))
  {
    var inner := if |contents| > maxDocSize then Err(TooLarge)
                 else Dispatch(Lower(filename), libs, camelotAvailable);
    Rewrap(ErrorPrefix, inner)
  }

  // ---------------------------------------------------------------------------
  // Lemmas

  /** The suffixes exclude one another, so the order in which they are tried
      decides nothing. */
  lemma SuffixesExclusive(name: string)
    ensures EndsWith(name, ".pdf") ==> !EndsWith(name, ".txt") && !EndsWith(name, ".md") && !EndsWith(name, ".docx")
    ensures EndsWith(name, ".txt") ==> !EndsWith(name, ".md") && !EndsWith(name, ".docx")
    ensures EndsWith(name, ".md") ==> !EndsWith(name, ".docx")
  {
    if EndsWith(name, ".pdf") {
      assert name[|name| - 1] == 'f';
    }
    if EndsWith(name, ".txt") {
      assert name[|name| - 1] == 't';
    }
    if EndsWith(name, ".md") {
      assert name[|name| - 1] == 'd';
    }
  }

  /** The file name is compared without regard to ASCII case. */
  lemma CaseInsensitive(contents: seq<byte>, f1: string, f2: string, maxDocSize: nat,
                        camelotAvailable: bool, libs: Libraries)
    requires Lower(f1) == Lower(f2)
    ensures ProcessDocument(contents, f1, maxDocSize, camelotAvailable, libs) ==
            ProcessDocument(contents, f2, maxDocSize, camelotAvailable, libs)
  {
  }

  /** A payload of exactly the limit passes the size check: what it gives is
      decided by the file name and the libraries alone. */
  lemma AtLimitAccepted(contents: seq<byte>, filename: string, maxDocSize: nat,
                        camelotAvailable: bool, libs: Libraries)
    requires |contents| == maxDocSize
    ensures ProcessDocument(contents, filename, maxDocSize, camelotAvailable, libs) ==
            Rewrap(ErrorPrefix, Dispatch(Lower(filename), libs, camelotAvailable))
  {
  }

  /** A text or Markdown file gives its decoded text both as content and as
      plain text, with no images and no tables; a decoding failure is reported
      with the prefix. */
  lemma TextFile(contents: seq<byte>, filename: string, maxDocSize: nat,
                 camelotAvailable: bool, libs: Libraries)
    requires |contents| <= maxDocSize
    requires EndsWith(Lower(filename), ".txt") || EndsWith(Lower(filename), ".md")
    ensures var r := ProcessDocument(contents, filename, maxDocSize, camelotAvailable, libs);
            && (r.Ok? <==> libs.utf8.Ok?)
            && (r.Ok? ==> r.value == Output(TextContent(libs.utf8.value), [], [], libs.utf8.value))
            && (r.Err? ==> r.error == ErrorPrefix + libs.utf8.error)
  {
    SuffixesExclusive(Lower(filename));
  }

  /** A Word file likewise gives the extracted text in both slots. */
  lemma DocxFile(contents: seq<byte>, filename: string, maxDocSize: nat,
                 camelotAvailable: bool, libs: Libraries)
    requires |contents| <= maxDocSize
    requires EndsWith(Lower(filename), ".docx")
    ensures var r := ProcessDocument(contents, filename, maxDocSize, camelotAvailable, libs);
            && (r.Ok? <==> libs.docx.Ok?)
            && (r.Ok? ==> r.value == Output(TextContent(libs.docx.value), [], [], libs.docx.value))
            && (r.Err? ==> r.error == ErrorPrefix + libs.docx.error)
  {
    assert !EndsWith(Lower(filename), ".pdf") && !EndsWith(Lower(filename), ".txt") && !EndsWith(Lower(filename), ".md") by {
      SuffixesExclusive(Lower(filename));
    }
  }

  /** Any other name is refused. */
  lemma UnsupportedFile(contents: seq<byte>, filename: string, maxDocSize: nat,
                        camelotAvailable: bool, libs: Libraries)
    requires |contents| <= maxDocSize
    requires !Supported(Lower(filename))
    ensures ProcessDocument(contents, filename, maxDocSize, camelotAvailable, libs) ==
            Err(ErrorPrefix + Unsupported)
  {
  }

  /** A PDF succeeds exactly when its text, images and tables all can be
      extracted, and then gives the layout pages, the image records, the
      tables, and the plain text of the layout pages. */
  lemma PdfFile(contents: seq<byte>, filename: string, maxDocSize: nat,
                camelotAvailable: bool, libs: Libraries)
    requires |contents| <= maxDocSize
    requires EndsWith(Lower(filename), ".pdf")
    ensures var r := ProcessDocument(contents, filename, maxDocSize, camelotAvailable, libs);
            && (r.Ok? <==> libs.layout.Ok? && libs.images.Ok? && ExtractTables(libs, camelotAvailable).Ok?)
            && (r.Ok? ==>
                  var pages := ExtractLayout(libs.layout.value);
                  r.value == Output(PdfContent(pages), ImageRecords(libs.images.value),
                                    ExtractTables(libs, camelotAvailable).value, Plain(pages)))
  {
  }

  /** The stages run in order and the first failure is reported: a text
      extraction failure wins over any failure of the later stages, and an image
      failure over a table failure. */
  lemma PdfFirstFailure(contents: seq<byte>, filename: string, maxDocSize: nat,
                        camelotAvailable: bool, libs: Libraries)
    requires |contents| <= maxDocSize
    requires EndsWith(Lower(filename), ".pdf")
    ensures var r := ProcessDocument(contents, filename, maxDocSize, camelotAvailable, libs);
            && (libs.layout.Err? ==>
                  r == Err(ErrorPrefix + ("Error in PDF text extraction: " + libs.layout.error)))
            && (libs.layout.Ok? && libs.images.Err? ==>
                  r == Err(ErrorPrefix + ("Error extracting images: " + libs.images.error)))
            && (libs.layout.Ok? && libs.images.Ok? && ExtractTables(libs, camelotAvailable).Err? ==>
                  r == Err(ErrorPrefix + ExtractTables(libs, camelotAvailable).error))
  {
  }

  /** With the default limit, one byte more than 50 MiB is rejected with the
      size message, and exactly 50 MiB goes on to the dispatch on the name. */
  lemma DefaultLimit(contents: seq<byte>, filename: string, camelotAvailable: bool, libs: Libraries)
    ensures var r := ProcessDocument(contents, filename, DefaultMaxDocSize, camelotAvailable, libs);
            && (|contents| == 50 * 1024 * 1024 + 1 ==> r == Err(ErrorPrefix + TooLarge))
            && (|contents| == 50 * 1024 * 1024 ==> r == Rewrap(ErrorPrefix, Dispatch(Lower(filename), libs, camelotAvailable)))
  {
  }

  /** A table failure is reported under its own prefix, from whichever strategy
      was chosen. */
  lemma TablesFailure(libs: Libraries, camelotAvailable: bool)
    ensures var t := ExtractTables(libs, camelotAvailable);
            && (camelotAvailable ==> (t.Err? <==> libs.camelot.Err?))
            && (!camelotAvailable ==> (t.Err? <==> libs.pageTexts.Err?))
            && (t.Err? ==>
                  t.error == "Error extracting tables: " + (if camelotAvailable then libs.camelot.error else libs.pageTexts.error))
  {
  }
}

# Document processor model

A Dafny model of `DocumentProcessor` in `utils/document_processor.py`. This
class takes an uploaded document (its bytes and its file name) and returns
four things:

- the processed content;
- the images extracted;
- the tables extracted;
- a plain-text version for the vector store.

The model covers these steps:

- **Size check and dispatch** (`Processor`): an upload larger than
  `max_doc_size` is rejected. The lower-cased file name then chooses:
  - `.pdf`: the PDF pipeline;
  - `.txt` / `.md`: UTF-8 text;
  - `.docx`: Word text;
  - anything else: "Unsupported file type".

  Every failure leaves `process_document` as one message that starts with
  "Error processing file: ".
- **Text with layout** (`Layout`): PyMuPDF's page dictionaries are walked
  block by block and line by line. A span whose text is all whitespace is
  dropped, and so is a line left without spans. A kept span records:
  - its text, size and bounding box;
  - whether "bold" or "italic" occurs in its lower-cased font name.
- **Plain text** (`PlainText`): the text of each page is its span texts joined
  with single spaces. The document's plain text is the page texts joined with
  newlines.
- **Images** (`Images`, with `Base64`):
  - Every image reference of every page is extracted and base64-encoded
    (section 4 of RFC 4648).
  - Each image becomes a record holding:
    - a `data:image/<ext>;base64,` URI (RFC 2397);
    - the page number;
    - the format;
    - the byte count.
  - A reference whose extraction raises is skipped. The remaining records keep
    their order.
- **Camelot table cleanup** (`Tables`). Each table goes through these steps,
  in order:
  1. Newlines become spaces.
  2. Whitespace runs are collapsed.
  3. All-missing columns are dropped.
  4. Columns holding nothing but '' are dropped.
  5. All-missing rows are dropped.
  6. The columns are relabelled "Column 1" ... "Column K".

  A table that ends up empty is discarded.
- **Fallback tables** (`Basic`): each page's text is split into lines, and each
  non-blank line is split into whitespace tokens. The rows of one page become a
  DataFrame padded with missing cells. A page with no non-blank line gives no
  table.

`Text` holds the Python string operations that these steps rely on:
`strip`, `lower`, `endswith`, `in`, `split('\n')`, `split()`, `re.sub(r'\s+', ' ', ·)`
and decimal formatting. `Seqs` holds generic facts about filtering and
flattening sequences. `Wrappers` holds `Option` and `Result`.

Each library's work on the bytes is an input of the model, not something it
computes. These inputs are collected in the `Processor.Libraries` record:

- UTF-8 decoding;
- docx2txt;
- PyMuPDF's page dictionaries and `extract_image` outcomes;
- Camelot's frames;
- PyPDF2's page texts.

Each input is either a value or the message of the exception raised.

Three behaviours of the code are modelled as written:

- **Rows of '' are kept when some column survives.** The row drop uses
  `dropna(how='all')`, which removes only rows whose cells are all missing.
  Camelot fills empty cells with '', so a visually empty row stays in any
  table that keeps at least one column (`Tables.EmptyStringRowKept`). A table
  made of nothing but '' is still discarded: its columns fail the '' filter,
  and a row with no columns has no present cell (`Tables.LoneEmptyRowDropped`).
- **A column of '' can survive.** The '' column filter runs before the row
  drop, and a missing cell counts as different from ''. So a column of '' and
  missing cells, with at least one of each, passes both column drops
  (`Tables.BlankColumnAfterRowDrop`). When the rows holding its missing cells
  are dropped afterwards, the column keeps nothing but ''
  (`Tables.BlankColumnExample`).
- **The size message is fixed.** It always reads "max 50MB", whatever
  `max_doc_size` is.

## Model

| member | source | states |
|---|---|---|
| Processor.ProcessDocument | utils/document_processor.py:31-49 | an upload over the limit fails with exactly the "File too large" message; every failure carries the "Error processing file: " prefix; success implies the upload was within the limit and the lower-cased name has a supported suffix |
| Processor.SuffixesExclusive | utils/document_processor.py:37-46 | at most one of the suffixes .pdf, .txt, .md and .docx matches a name, so the order of the branches never decides between two of them |
| Processor.CaseInsensitive | utils/document_processor.py:37-42 | two file names that lower-case to the same string give the same result for the same bytes and libraries |
| Processor.AtLimitAccepted | utils/document_processor.py:34-35 | an upload of exactly `max_doc_size` bytes passes the size check and goes on to the dispatch on its name |
| Processor.TextFile | utils/document_processor.py:39-41 | a .txt or .md upload within the limit succeeds exactly when it decodes as UTF-8, and then the decoded text is both the content and the plain text, with no images or tables; otherwise the decoder's message is reported with the prefix |
| Processor.DocxFile | utils/document_processor.py:42-44 | a .docx upload within the limit succeeds exactly when docx2txt does, and then its text is both the content and the plain text, with no images or tables; otherwise its message is reported with the prefix |
| Processor.UnsupportedFile | utils/document_processor.py:45-46 | any other name within the limit fails with the "Unsupported file type" message |
| Processor.PdfFile | utils/document_processor.py:51-63 | a .pdf upload within the limit succeeds exactly when text, image and table extraction all succeed, and then the output holds the layout pages, the image records, the tables and the plain text of those same pages |
| Processor.PdfFirstFailure | utils/document_processor.py:53-55 | the document-level message is that of the first failing stage: the text stage's if it fails, otherwise the image stage's if that fails, otherwise the table stage's; each carries its stage's prefix under "Error processing file: " |
| Processor.DefaultLimit | utils/document_processor.py:17-35 | with the default limit of 50 MiB, an upload one byte larger is rejected with the size message, and one of exactly 50 MiB goes on to the dispatch on its name |
| Processor.TablesFailure | utils/document_processor.py:135-144 | the table stage fails exactly when the strategy chosen by Camelot's availability fails, and its message is "Error extracting tables: " followed by that strategy's message |
| Layout.RetainedIffStrip | utils/document_processor.py:81 | a span is kept exactly when its text does not strip to the empty string |
| Layout.DescribeStyle | utils/document_processor.py:82-88 | a kept span has the text, size and box of its raw span, and it is bold (italic) exactly when "bold" ("italic") occurs at some position of the lower-cased font name |
| Layout.ExtractLayout | utils/document_processor.py:71-93 | there is one page of content for every page of the document, empty pages included |
| Layout.ExtractLayoutPages | utils/document_processor.py:71-93 | page p of the content is built from the blocks of page p of the document alone |
| Layout.LineSpansInOrder | utils/document_processor.py:79-88 | the spans kept from a line are the descriptions of exactly the non-blank raw spans, in their original order |
| Layout.LineSpansEmptyIff | utils/document_processor.py:79-91 | a line yields no spans, and so is not appended, exactly when every one of its spans is blank |
| Layout.LineSpansRetained | utils/document_processor.py:81-88 | no kept span has a blank text |
| Layout.PageLinesInOrder | utils/document_processor.py:75-91 | the lines of a page are, in order, the kept spans of exactly those raw lines that keep at least one span |
| Layout.PageSpansKept | utils/document_processor.py:75-91 | reading a page's kept lines one after another gives the kept spans of all of its raw lines read one after another: dropping lines loses no span |
| Layout.PageLinesShape | utils/document_processor.py:90-91 | every line of a page is non-empty and every span in it has non-blank text |
| PlainText.PlainTextPages | utils/document_processor.py:58-61 | splitting the plain text on newlines gives back the page texts, one per page |
| PlainText.EmptyPlain | utils/document_processor.py:58-61 | a page without lines contributes an empty page text, and a document without pages has an empty plain text |
| PlainText.PlainTextWords | utils/document_processor.py:58-61 | the whitespace tokens of the plain text are the tokens of every span text, page by page and line by line |
| PlainText.KeptWords | utils/document_processor.py:79-88 | dropping blank spans loses no token: the kept spans of a line have the same tokens as all of its raw spans |
| PlainText.DocumentWords | utils/document_processor.py:53-61 | the tokens of the plain text of a PDF are the tokens of all raw span texts of the document, in reading order |
| Base64.Encode | utils/document_processor.py:117 | the encoding has four characters for every started group of three bytes |
| Base64.DecodeEncode | utils/document_processor.py:117 | decoding an encoding gives the original bytes back |
| Base64.EncodeDecode | utils/document_processor.py:117 | every string that decodes is the encoding of what it decodes to, so the encoding is canonical |
| Base64.DecodeIffEncode | utils/document_processor.py:117 | a string decodes to given bytes exactly when it is their encoding |
| Images.ParseDataUriRoundTrip | utils/document_processor.py:117-120 | the data URI of an image reads back into its extension and its bytes |
| Images.RecordRoundTrip | utils/document_processor.py:114-124 | an image's record carries a data URI that reads back into the record's format and the image's bytes, the byte count of the image and the page it came from |
| Images.PageRecordsPage | utils/document_processor.py:121 | every record made from a page carries that page's number |
| Images.RecordsFromPages | utils/document_processor.py:106-124 | every record's page lies within the pages walked, and records appear in non-decreasing page order |
| Images.PageRecordsInOrder | utils/document_processor.py:110-128 | the records of a page are those of exactly the references that extracted, in their original order |
| Images.ImageRecordsByPage | utils/document_processor.py:106-128 | the result is the records of page 0, then those of page 1, and so on |
| Images.FailureSkipped | utils/document_processor.py:126-128 | when one extraction that succeeded fails instead, the result is the same list without that image's record and nothing else changes |
| Images.ExtractImages | utils/document_processor.py:102-130 | the loop over pages and references accumulates exactly the records of the page-by-page definition |
| Tables.CleanTextSpec | utils/document_processor.py:155-156 | a cleaned cell has no newline and no whitespace other than single spaces, has the same tokens as the original, and is empty only if the original was |
| Tables.CleanTextIdempotent | utils/document_processor.py:155-156 | cleaning an already cleaned cell changes nothing |
| Tables.NormaliseKeepsMissing | utils/document_processor.py:155-156 | the regular-expression replacements leave a cell missing exactly when it was missing |
| Tables.ColumnsKept | utils/document_processor.py:157-158 | the two column drops together keep, in their original order, exactly the columns that are not all missing and have a cell other than '' |
| Tables.ColumnLabelSpec | utils/document_processor.py:160 | each label is "Column " followed by the decimal numeral of the 1-based position, and different positions get different labels |
| Tables.TidySpec | utils/document_processor.py:153-163 | a table is discarded exactly when no column or no row survives; otherwise the kept table is the surviving cells at their original row and column positions, under the labels "Column 1" ... "Column K" |
| Tables.RowKeptIff | utils/document_processor.py:159 | a row survives exactly when one of the surviving columns has a present cell in it |
| Tables.TidyShape | utils/document_processor.py:155-163 | a kept table is rectangular and non-empty, its present cells are whitespace-collapsed with no newline, none of its rows is all missing and none of its columns is all missing |
| Tables.CleanTablesInOrder | utils/document_processor.py:152-165 | the returned tables are the cleaned versions of exactly the tables that do not end up empty, in the order Camelot found them |
| Tables.EmptyStringRowKept | utils/document_processor.py:155-163 | in any table where some column survives the column drops, a row whose cells are all '' survives the row drop, because '' is not a missing value, and the table is kept |
| Tables.EmptyStringRowExample | utils/document_processor.py:155-163 | a table with a row of content above a row of '' comes out with both rows under the label "Column 1" |
| Tables.LoneEmptyRowDropped | utils/document_processor.py:157-163 | a table holding a single '' cell is discarded, because its column fails the '' filter and the row then has no present cell |
| Tables.BlankColumnAfterRowDrop | utils/document_processor.py:155-158 | in any table, a column whose cells are all '' or missing, with at least one of each, survives both column drops, and its cells are still only '' or missing after cleaning, so the kept table can hold a column with no text |
| Tables.BlankColumnExample | utils/document_processor.py:155-163 | for the table with rows ['', 'a'] and [missing, missing], the first column passes the '' filter through its missing cell, the row drop removes that row, and the kept table's first column holds only '' |
| Basic.LineRowSpec | utils/document_processor.py:175 | a line gives a row exactly when it does not strip to empty, and that row is a non-empty list of whitespace-free tokens |
| Basic.TextRowsInOrder | utils/document_processor.py:175 | the rows of a page are the token lists of exactly its non-blank lines, in order |
| Basic.TextRowsShape | utils/document_processor.py:175 | every row is non-empty and every token in it is non-empty and free of whitespace |
| Basic.TextRowsWords | utils/document_processor.py:175 | reading the rows one after another gives the whitespace tokens of the whole page text: splitting on lines loses no token |
| Basic.TextRowsEmptyIff | utils/document_processor.py:175-176 | a page yields no rows exactly when its text is all whitespace |
| Basic.BlankIffLinesBlank | utils/document_processor.py:175-176 | a text is all whitespace exactly when each of its lines is |
| Basic.MaxLen | utils/document_processor.py:177 | the width of the frame is the length of its longest row: no row is longer and some row is that long |
| Basic.GridSpec | utils/document_processor.py:177-178 | the frame of non-empty rows is rectangular and non-empty, with one row per token list, each token in its position and missing cells after the end of a shorter row |
| Basic.PageTableIff | utils/document_processor.py:174-179 | a page gives a table exactly when its text is not all whitespace, and that table is the frame of its rows |
| Basic.BasicTablesInOrder | utils/document_processor.py:172-181 | the tables are the frames of exactly the pages whose text is not all whitespace, in page order |
| Text.StripEmptyIffBlank | utils/document_processor.py:81 | `strip()` gives the empty string exactly when the text is all whitespace |
| Text.ContainsIff | utils/document_processor.py:85-86 | the substring test holds exactly when the needle occurs at some position |
| Text.SplitOnJoin | utils/document_processor.py:58-61 | joining one or more newline-free pieces with newlines and splitting the result on newlines gives the pieces back |
| Text.WordsOfPieces | utils/document_processor.py:175 | splitting on newlines, then tokenising each piece, gives the same tokens as tokenising the whole text |
| Text.CollapseAfterNewlines | utils/document_processor.py:155-156 | turning newlines into spaces before collapsing whitespace changes nothing, since a newline is already whitespace |
| Text.WordsOfCollapse | utils/document_processor.py:156 | collapsing whitespace keeps the tokens of `split()` |
| Text.DecimalRoundTrip | utils/document_processor.py:160 | the decimal numeral of a number reads back as that number |

## Left out

- The libraries' own parsing is not part of this model: PyMuPDF (`fitz.open`, `get_text`, `get_images`, `extract_image`), PyPDF2, Camelot's table detection, docx2txt and UTF-8 decoding. Their outcomes are inputs in `Processor.Libraries`, and a raised exception is represented by its message.
- `str.lower` is modelled for ASCII letters only. This is exact for the tests the source makes: outside ASCII, only 'İ' and the Kelvin sign lower-case to ASCII letters, and neither can create or destroy a match of ".pdf", ".txt", ".md", ".docx", "bold" or "italic".
- Font sizes and bounding boxes are floats. They are carried as opaque `real` values and never computed with.
- The order of blocks and lines produced by `sort=True` is the library's. The model takes the blocks in the order given.
- The `print` of a skipped image (line 127) is output only, so it is not modelled.
- `CAMELOT_AVAILABLE` is a parameter of the model. In the source the unconditional `import camelot` on line 8 runs before the guarded import. A missing Camelot therefore stops the module from loading, and the fallback is never reached. The model keeps both strategies so that each can be stated.
- pandas is reduced to what these steps observe: cells as strings or missing, column labels, and row order. Row index labels, dtypes and the NaN object itself are not modelled.
- PlainText.PlainTextPages: the round trip needs at least one page and no newline inside a span text. `"".split('\n')` has one piece rather than none, and a newline inside a span would split its page.
- Images.ParseDataUriRoundTrip: the URI is only read back when the extension has no ';', which the extensions PyMuPDF reports never have.
- Images.RecordRoundTrip: it needs the same condition on the extension as the data URI round trip.

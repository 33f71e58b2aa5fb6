/** The plain-text version `_process_pdf` builds for the vector store: the span
    texts of a page joined with single spaces, and the pages joined with
    newlines. */
module PlainText {
  import opened Text
  import opened Layout
  import Seqs

  /** The texts of a sequence of spans, such as one line. */
  function TextsOf(spans: seq<Span>): seq<string> {
    seq(|spans|, j requires 0 <= j < |spans| => spans[j].text)
  }

  /** The texts of all spans of a page, line after line. */
  function SpanTexts(page: PageContent): seq<string> {
    if page == [] then [] else TextsOf(page[0]) + SpanTexts(page[1..])
  }

  /** The text of a page: the texts of all its spans joined with single spaces. */
  function PageText(page: PageContent): string {
    Join(" ", SpanTexts(page))
  }

  function PageTexts(content: seq<PageContent>): seq<string> {
    seq(|content|, p requires 0 <= p < |content| => PageText(content[p]))
  }

  /** The plain text of a document: the page texts joined with newlines. */
  function Plain(content: seq<PageContent>): string {
    Join("\n", PageTexts(content))
  }

  /** No span text of the content holds a newline (PyMuPDF reports line breaks
      as separate lines, not inside span texts). */
  predicate NoNewlines(content: seq<PageContent>) {
    forall p, l, j :: 0 <= p < |content| && 0 <= l < |content[p]| && 0 <= j < |content[p][l]| ==>
      '\n' !in content[p][l][j].text
  }

  /** Every text of `SpanTexts(page)` is the text of one of its spans. */
  lemma {:induction false} SpanTextsFrom(page: PageContent, c: char)
    requires forall l, j :: 0 <= l < |page| && 0 <= j < |page[l]| ==> c !in page[l][j].text
    ensures forall k :: 0 <= k < |SpanTexts(page)| ==> c !in SpanTexts(page)[k]
  {
    if page != [] {
      SpanTextsFrom(page[1..], c);
      assert forall l, j :: 1 <= l < |page| && 0 <= j < |page[l]| ==> page[1..][l - 1][j] == page[l][j];
      var h, t := TextsOf(page[0]), SpanTexts(page[1..]);
      assert forall k :: 0 <= k < |h + t| ==> (h + t)[k] == if k < |h| then h[k] else t[k - |h|];
    }
  }

  /** Splitting the plain text at its newlines gives back one string per page, in
      page order; a page with no lines gives "". */
  lemma PlainTextPages(content: seq<PageContent>)
    requires |content| >= 1
    requires NoNewlines(content)
    ensures SplitOn(Plain(content), '\n') == PageTexts(content)
    ensures |SplitOn(Plain(content), '\n')| == |content|
  {
    var texts := PageTexts(content);
    forall p | 0 <= p < |content|
      ensures '\n' !in texts[p]
    {
      SpanTextsFrom(content[p], '\n');
      JoinFree(" ", SpanTexts(content[p]), '\n');
    }
    SplitOnJoin(texts, '\n');
  }

  /** A page without lines contributes an empty slot, and no content at all gives
      the empty string. */
  lemma EmptyPlain(content: seq<PageContent>, p: nat)
    requires p < |content| && content[p] == []
    ensures PageTexts(content)[p] == ""
    ensures Plain([]) == ""
  {
  }

  lemma {:induction false} SpanTextsAppend(a: PageContent, b: PageContent)
    ensures SpanTexts(a + b) == SpanTexts(a) + SpanTexts(b)
  {
    if a == [] {
      assert a + b == b;
    } else {
      assert (a + b)[1..] == a[1..] + b;
      SpanTextsAppend(a[1..], b);
    }
  }

  /** All span texts of the content, page after page. */
  function AllTexts(content: seq<PageContent>): seq<string> {
    if content == [] then [] else SpanTexts(content[0]) + AllTexts(content[1..])
  }

  lemma {:induction false} FlattenWordsEachAppend(a: seq<string>, b: seq<string>)
    ensures Seqs.Flatten(WordsEach(a + b)) == Seqs.Flatten(WordsEach(a)) + Seqs.Flatten(WordsEach(b))
  {
    assert WordsEach(a + b) == WordsEach(a) + WordsEach(b);
    Seqs.FlattenAppend(WordsEach(a), WordsEach(b));
  }

  /** The plain text holds exactly the words of the span texts, in order: the
      joins add separators but never merge or split a word. */
  lemma {:induction false} PlainTextWords(content: seq<PageContent>)
    ensures Words(Plain(content)) == Seqs.Flatten(WordsEach(AllTexts(content)))
  {
    WordsOfJoinOn(PageTexts(content), '\n');
    PageWords(content);
  }

  lemma {:induction false} PageWords(content: seq<PageContent>)
    ensures Seqs.Flatten(WordsEach(PageTexts(content))) == Seqs.Flatten(WordsEach(AllTexts(content)))
  {
    if content != [] {
      PageWords(content[1..]);
      PageTextsCons(content);
      FlattenWordsEachAppend([PageText(content[0])], PageTexts(content[1..]));
      OnePageWords(content[0]);
      FlattenWordsEachAppend(SpanTexts(content[0]), AllTexts(content[1..]));
    }
  }

  lemma PageTextsCons(content: seq<PageContent>)
    requires content != []
    ensures PageTexts(content) == [PageText(content[0])] + PageTexts(content[1..])
  {
  }

  /** The words of one page's text are those of its span texts. */
  lemma OnePageWords(page: PageContent)
    ensures Seqs.Flatten(WordsEach([PageText(page)])) == Seqs.Flatten(WordsEach(SpanTexts(page)))
  {
    WordsOfJoinOn(SpanTexts(page), ' ');
    Seqs.FlattenCons(Words(PageText(page)), []);
    assert WordsEach([PageText(page)]) == [Words(PageText(page))] + [];
  }

  // ---------------------------------------------------------------------------
  // From the raw document

  function RawTextsOf(spans: seq<RawSpan>): seq<string> {
    seq(|spans|, j requires 0 <= j < |spans| => spans[j].text)
  }

  /** The texts of every raw span of the document, blank ones included, page by
      page in reading order. */
  function RawTexts(doc: seq<RawPage>): seq<string> {
    if doc == [] then [] else RawTextsOf(Seqs.Flatten(RawLinesOf(doc[0]))) + RawTexts(doc[1..])
  }

  lemma {:induction false} SpanTextsFlatten(page: PageContent)
    ensures SpanTexts(page) == TextsOf(Seqs.Flatten(page))
  {
    if page != [] {
      SpanTextsFlatten(page[1..]);
      assert TextsOf(page[0] + Seqs.Flatten(page[1..])) == TextsOf(page[0]) + TextsOf(Seqs.Flatten(page[1..]));
    }
  }

  /** Dropping the blank spans drops no word. */
  lemma {:induction false} KeptWords(raw: seq<RawSpan>)
    ensures Seqs.Flatten(WordsEach(TextsOf(LineSpans(raw)))) == Seqs.Flatten(WordsEach(RawTextsOf(raw)))
  {
    if raw != [] {
      KeptWords(raw[1..]);
      var h := if Retained(raw[0]) then [Describe(raw[0])] else [];
      LineSpansCons(raw);
      TextsOfAppend(h, LineSpans(raw[1..]));
      FlattenWordsEachAppend(TextsOf(h), TextsOf(LineSpans(raw[1..])));
      RawTextsOfCons(raw);
      FlattenWordsEachAppend([raw[0].text], RawTextsOf(raw[1..]));
      KeptSpanWords(raw[0]);
    }
  }

  lemma LineSpansCons(raw: seq<RawSpan>)
    requires raw != []
    ensures LineSpans(raw) == (if Retained(raw[0]) then [Describe(raw[0])] else []) + LineSpans(raw[1..])
  {
  }

  lemma RawTextsOfCons(raw: seq<RawSpan>)
    requires raw != []
    ensures RawTextsOf(raw) == [raw[0].text] + RawTextsOf(raw[1..])
  {
  }

  lemma TextsOfAppend(a: seq<Span>, b: seq<Span>)
    ensures TextsOf(a + b) == TextsOf(a) + TextsOf(b)
  {
  }

  /** One raw span contributes the same words whether or not it is kept. */
  lemma KeptSpanWords(x: RawSpan)
    ensures var h := if Retained(x) then [Describe(x)] else [];
            Seqs.Flatten(WordsEach(TextsOf(h))) == Seqs.Flatten(WordsEach([x.text]))
  {
    WordsEmptyIffBlank(x.text);
    Seqs.FlattenCons(Words(x.text), []);
    assert WordsEach([x.text]) == [Words(x.text)] + [];
    if Retained(x) {
      assert TextsOf([Describe(x)]) == [x.text];
    } else {
      assert TextsOf([]) == [];
    }
  }

  lemma {:induction false} DocumentWordsFrom(doc: seq<RawPage>)
    ensures Seqs.Flatten(WordsEach(AllTexts(ExtractLayout(doc)))) == Seqs.Flatten(WordsEach(RawTexts(doc)))
  {
    if doc != [] {
      DocumentWordsFrom(doc[1..]);
      var page := PageLines(doc[0]);
      assert ExtractLayout(doc) == [page] + ExtractLayout(doc[1..]);
      assert AllTexts(ExtractLayout(doc)) == SpanTexts(page) + AllTexts(ExtractLayout(doc[1..]));
      FlattenWordsEachAppend(SpanTexts(page), AllTexts(ExtractLayout(doc[1..])));
      FlattenWordsEachAppend(RawTextsOf(Seqs.Flatten(RawLinesOf(doc[0]))), RawTexts(doc[1..]));
      SpanTextsFlatten(page);
      PageSpansKept(doc[0]);
      KeptWords(Seqs.Flatten(RawLinesOf(doc[0])));
    }
  }

  /** The plain text of a PDF holds exactly the words of all its raw spans, in
      reading order: the span filter, the line filter and the joins neither lose
      nor merge a word. */
  lemma DocumentWords(doc: seq<RawPage>)
    ensures Words(Plain(ExtractLayout(doc))) == Seqs.Flatten(WordsEach(RawTexts(doc)))
  {
    PlainTextWords(ExtractLayout(doc));
    DocumentWordsFrom(doc);
  }
}

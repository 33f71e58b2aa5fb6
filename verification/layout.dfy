/** Text extraction with layout (`_extract_text_with_layout`): the page
    dictionaries PyMuPDF produces are walked block by block and line by line,
    spans whose text is blank are dropped, and lines left without spans are
    dropped with them. */
module Layout {
  import opened Wrappers
  import opened Text
  import Seqs

  /** A span's bounding box, as the four floats PyMuPDF reports. */
  datatype BBox = BBox(x0: real, y0: real, x1: real, y1: real)

  /** A span of `page.get_text("dict")`: its "text", "size", "font" and "bbox". */
  datatype RawSpan = RawSpan(text: string, size: real, font: string, bbox: BBox)

  /** A line; None when it has no "spans" key. */
  datatype RawLine = RawLine(spans: Option<seq<RawSpan>>)

  /** A block; None when it has no "lines" key, as for an image block. */
  datatype RawBlock = RawBlock(lines: Option<seq<RawLine>>)

  /** The "blocks" of one page, in reading order. */
  type RawPage = seq<RawBlock>

  /** The dictionary kept for a span: "text", "font_size", "is_bold",
      "is_italic" and "bbox". */
  datatype Span = Span(text: string, fontSize: real, isBold: bool, isItalic: bool, bbox: BBox)

  /** The content of a page: its non-empty lines of kept spans. */
  type PageContent = seq<seq<Span>>

  /** A span is kept when its text is not all whitespace, which is when it does
      not strip to nothing (`RetainedIffStrip`). */
  predicate Retained(s: RawSpan) {
    !Blank(s.text)
  }

  /** `span["text"].strip()` is truthy exactly for the spans kept. */
  lemma RetainedIffStrip(s: RawSpan)
    ensures Retained(s) <==> Strip(s.text) != []
  {
    StripEmptyIffBlank(s.text);
  }

  /** The dictionary built for a kept span; the style flags are substring tests
      on the lower-cased font name. */
  function Describe(s: RawSpan): Span {
    Span(s.text, s.size, Contains(Lower(s.font), "bold"), Contains(Lower(s.font), "italic"), s.bbox)
  }

  /** A kept span keeps the text, size and box of its raw span, and it is bold
      (italic) exactly when "bold" ("italic") occurs somewhere in the lower-cased
      font name. */
  lemma DescribeStyle(s: RawSpan)
    ensures var r := Describe(s);
            && r.text == s.text && r.fontSize == s.size && r.bbox == s.bbox
            && (r.isBold <==> exists i :: OccursAt(Lower(s.font), "bold", i))
            && (r.isItalic <==> exists i :: OccursAt(Lower(s.font), "italic", i))
  {
    ContainsIff(Lower(s.font), "bold");
    ContainsIff(Lower(s.font), "italic");
  }

  /** The spans kept from one line, in order. */
  function LineSpans(spans: seq<RawSpan>): seq<Span> {
    if spans == [] then []
    else (if Retained(spans[0]) then [Describe(spans[0])] else []) + LineSpans(spans[1..])
  }

  /** The lines of a block that keep at least one span. */
  function LinesOf(lines: seq<RawLine>): seq<seq<Span>> {
    if lines == [] then []
    else
      (match lines[0].spans
       case None => []
       case Some(ss) => if LineSpans(ss) == [] then [] else [LineSpans(ss)])
      + LinesOf(lines[1..])
  }

  function BlockLines(b: RawBlock): seq<seq<Span>> {
    match b.lines
    case None => []
    case Some(ls) => LinesOf(ls)
  }

  /** The content of one page: the kept lines of all its blocks, in order. */
  function PageLines(blocks: RawPage): PageContent {
    if blocks == [] then [] else BlockLines(blocks[0]) + PageLines(blocks[1..])
  }

  /** The result of `_extract_text_with_layout` for a document that opens: one
      entry per page, in page order. */
  function ExtractLayout(doc: seq<RawPage>): (r: seq<PageContent>)
    ensures |r| == |doc|
  {
    if doc == [] then [] else [PageLines(doc[0])] + ExtractLayout(doc[1..])
  }

  // ---------------------------------------------------------------------------
  // Reference definitions

  /** The raw span lists of a page: those of every line that has "spans", in
      every block that has "lines". */
  function RawLinesOf(blocks: RawPage): seq<seq<RawSpan>> {
    if blocks == [] then []
    else
      (match blocks[0].lines case None => [] case Some(ls) => PresentSpans(ls))
      + RawLinesOf(blocks[1..])
  }

  function PresentSpans(lines: seq<RawLine>): seq<seq<RawSpan>> {
    if lines == [] then []
    else (match lines[0].spans case None => [] case Some(ss) => [ss]) + PresentSpans(lines[1..])
  }

  predicate KeepsSpan(spans: seq<RawSpan>) {
    LineSpans(spans) != []
  }

  // ---------------------------------------------------------------------------
  // Lemmas

  /** Page `p` of the result is the content of page `p` of the document. */
  lemma {:induction false} ExtractLayoutPages(doc: seq<RawPage>)
    ensures forall p :: 0 <= p < |doc| ==> ExtractLayout(doc)[p] == PageLines(doc[p])
  {
    if doc != [] {
      ExtractLayoutPages(doc[1..]);
      assert forall p :: 1 <= p < |doc| ==> doc[1..][p - 1] == doc[p];
    }
  }

  /** The span a raw span gives, if it is kept. */
  function KeptSpan(): RawSpan -> Option<Span> {
    (x: RawSpan) => if Retained(x) then Some(Describe(x)) else None
  }

  lemma {:induction false} LineSpansFilterMap(spans: seq<RawSpan>)
    ensures LineSpans(spans) == Seqs.FilterMap(KeptSpan(), spans)
  {
    if spans != [] {
      LineSpansFilterMap(spans[1..]);
    }
  }

  lemma LineSpansAppend(a: seq<RawSpan>, b: seq<RawSpan>)
    ensures LineSpans(a + b) == LineSpans(a) + LineSpans(b)
  {
    LineSpansFilterMap(a + b);
    LineSpansFilterMap(a);
    LineSpansFilterMap(b);
    Seqs.FilterMapAppend(KeptSpan(), a, b);
  }

  /** The kept spans of a line are the described spans at the positions of its
      non-blank spans, in order. */
  lemma LineSpansInOrder(spans: seq<RawSpan>)
    ensures var ix := Seqs.Positions(Retained, spans);
            && |LineSpans(spans)| == |ix|
            && forall k :: 0 <= k < |ix| ==> LineSpans(spans)[k] == Describe(spans[ix[k]])
  {
    var f := KeptSpan();
    LineSpansFilterMap(spans);
    Seqs.FilterMapInOrder(f, spans);
    Seqs.PositionsCongruent(Seqs.Defined(f), spans, Retained, spans);
  }

  /** A line keeps no span exactly when every one of its spans is blank. */
  lemma {:induction false} LineSpansEmptyIff(spans: seq<RawSpan>)
    ensures LineSpans(spans) == [] <==> forall j :: 0 <= j < |spans| ==> Blank(spans[j].text)
  {
    if spans != [] {
      LineSpansEmptyIff(spans[1..]);
      assert forall j :: 1 <= j < |spans| ==> spans[1..][j - 1] == spans[j];
    }
  }

  /** Every kept span has text that is not blank. */
  lemma {:induction false} LineSpansRetained(spans: seq<RawSpan>)
    ensures forall k :: 0 <= k < |LineSpans(spans)| ==> !Blank(LineSpans(spans)[k].text)
  {
    LineSpansInOrder(spans);
  }

  /** The lines kept from a list of raw span lists. */
  function Kept(ls: seq<seq<RawSpan>>): seq<seq<Span>> {
    if ls == [] then []
    else (if KeepsSpan(ls[0]) then [LineSpans(ls[0])] else []) + Kept(ls[1..])
  }

  /** The line a raw span list gives, if it keeps a span. */
  function KeptLine(): seq<RawSpan> -> Option<seq<Span>> {
    (l: seq<RawSpan>) => if KeepsSpan(l) then Some(LineSpans(l)) else None
  }

  lemma {:induction false} KeptFilterMap(ls: seq<seq<RawSpan>>)
    ensures Kept(ls) == Seqs.FilterMap(KeptLine(), ls)
  {
    if ls != [] {
      KeptFilterMap(ls[1..]);
    }
  }

  lemma KeptAppend(a: seq<seq<RawSpan>>, b: seq<seq<RawSpan>>)
    ensures Kept(a + b) == Kept(a) + Kept(b)
  {
    KeptFilterMap(a + b);
    KeptFilterMap(a);
    KeptFilterMap(b);
    Seqs.FilterMapAppend(KeptLine(), a, b);
  }

  lemma {:induction false} LinesOfKept(lines: seq<RawLine>)
    ensures LinesOf(lines) == Kept(PresentSpans(lines))
  {
    if lines != [] {
      LinesOfKept(lines[1..]);
      var h := match lines[0].spans case None => [] case Some(ss) => [ss];
      KeptAppend(h, PresentSpans(lines[1..]));
      if h != [] {
        assert h[1..] == [];
      }
    }
  }

  lemma {:induction false} PageLinesKept(blocks: RawPage)
    ensures PageLines(blocks) == Kept(RawLinesOf(blocks))
  {
    if blocks != [] {
      PageLinesKept(blocks[1..]);
      var ps := match blocks[0].lines case None => [] case Some(ls) => PresentSpans(ls);
      if blocks[0].lines.Some? {
        LinesOfKept(blocks[0].lines.value);
      }
      assert BlockLines(blocks[0]) == Kept(ps);
      KeptAppend(ps, RawLinesOf(blocks[1..]));
    }
  }

  /** The lines of a page are, in order, the kept spans of those raw lines that
      keep at least one span. */
  lemma {:induction false} PageLinesInOrder(blocks: RawPage)
    ensures var ls := RawLinesOf(blocks);
            var ix := Seqs.Positions(KeepsSpan, ls);
            && |PageLines(blocks)| == |ix|
            && forall k :: 0 <= k < |ix| ==> PageLines(blocks)[k] == LineSpans(ls[ix[k]])
  {
    PageLinesKept(blocks);
    KeptInOrder(RawLinesOf(blocks));
  }

  lemma KeptInOrder(ls: seq<seq<RawSpan>>)
    ensures var ix := Seqs.Positions(KeepsSpan, ls);
            && |Kept(ls)| == |ix|
            && forall k :: 0 <= k < |ix| ==> Kept(ls)[k] == LineSpans(ls[ix[k]])
  {
    var f := KeptLine();
    KeptFilterMap(ls);
    Seqs.FilterMapInOrder(f, ls);
    Seqs.PositionsCongruent(Seqs.Defined(f), ls, KeepsSpan, ls);
  }

  /** Dropping the empty lines loses no span: the spans of a page, read line by
      line, are the kept spans of all its raw spans. */
  lemma {:induction false} PageSpansKept(blocks: RawPage)
    ensures Seqs.Flatten(PageLines(blocks)) == LineSpans(Seqs.Flatten(RawLinesOf(blocks)))
  {
    PageLinesKept(blocks);
    KeptFlatten(RawLinesOf(blocks));
  }

  lemma {:induction false} KeptFlatten(ls: seq<seq<RawSpan>>)
    ensures Seqs.Flatten(Kept(ls)) == LineSpans(Seqs.Flatten(ls))
  {
    if ls != [] {
      KeptFlatten(ls[1..]);
      var h := if KeepsSpan(ls[0]) then [LineSpans(ls[0])] else [];
      Seqs.FlattenAppend(h, Kept(ls[1..]));
      LineSpansAppend(ls[0], Seqs.Flatten(ls[1..]));
      if h != [] {
        assert h[1..] == [];
      }
    }
  }

  /** Every line of a page holds at least one span, and every span is one whose
      text is not blank. */
  lemma PageLinesShape(blocks: RawPage)
    ensures forall k :: 0 <= k < |PageLines(blocks)| ==> PageLines(blocks)[k] != []
    ensures forall k, j :: 0 <= k < |PageLines(blocks)| && 0 <= j < |PageLines(blocks)[k]| ==>
              !Blank(PageLines(blocks)[k][j].text)
  {
    PageLinesInOrder(blocks);
    var ls := RawLinesOf(blocks);
    var ix := Seqs.Positions(KeepsSpan, ls);
    forall k | 0 <= k < |ix|
      ensures forall j :: 0 <= j < |PageLines(blocks)[k]| ==> !Blank(PageLines(blocks)[k][j].text)
    {
      LineSpansRetained(ls[ix[k]]);
    }
  }
}

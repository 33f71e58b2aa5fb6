/** Image extraction from a PDF (`_extract_images`): every image reference of
    every page is extracted, base64-encoded and wrapped in a `data:` URI
    (section 3 of RFC 2397); a reference whose extraction raises is skipped. */
module Images {
  import opened Wrappers
  import opened Text
  import opened Base64
  import Seqs

  /** What `doc.extract_image(xref)` yields: the stored bytes and their file
      extension (the "image" and "ext" entries). */
  datatype Extracted = Extracted(bytes: seq<byte>, ext: string)

  /** One dictionary of the returned list, with keys 'data', 'page', 'format'
      and 'size'. */
  datatype ImageRecord = ImageRecord(data: string, page: nat, format: string, size: nat)

  /** One page: the outcome of extracting each reference of `page.get_images()`,
      in order; None where the extraction raised. */
  type PageImages = seq<Option<Extracted>>

  predicate Succeeded(o: Option<Extracted>) {
    o.Some?
  }

  const DataPrefix: string := "data:image/"
  const Base64Marker: string := ";base64,"

  /** The data URI of an image: the media type image/<ext>, the base64 marker,
      and the encoded bytes. */
  function DataUri(ext: string, bytes: seq<byte>): string {
    DataPrefix + ext + Base64Marker + Encode(bytes)
  }

  /** The position of the first `c` in `s`, or |s| when there is none. */
  function IndexOf(s: string, c: char): (k: nat)
    ensures k <= |s|
    ensures c !in s[..k]
    ensures k < |s| ==> s[k] == c
  {
    if s == [] then 0
    else if s[0] == c then 0
    else
      var k := IndexOf(s[1..], c) + 1;
      assert s[..k] == [s[0]] + s[1..][..k - 1];
      k
  }

  /** Reads a `data:image/<ext>;base64,<payload>` URI back into the extension and
      the decoded bytes; None for anything else. */
  function ParseDataUri(s: string): Option<(string, seq<byte>)> {
    if !StartsWith(s, DataPrefix) then None
    else
      var rest := s[|DataPrefix|..];
      var k := IndexOf(rest, ';');
      var tail := rest[k..];
      if !StartsWith(tail, Base64Marker) then None
      else
        match Decode(tail[|Base64Marker|..])
        case None => None
        case Some(b) => Some((rest[..k], b))
  }

  /** A URI built from an extension without ';' reads back to that extension and
      the original bytes. */
  lemma ParseDataUriRoundTrip(ext: string, bytes: seq<byte>)
    requires ';' !in ext
    ensures ParseDataUri(DataUri(ext, bytes)) == Some((ext, bytes))
  {
    var s := DataUri(ext, bytes);
    var payload := Base64Marker + Encode(bytes);
    var rest := ext + payload;
    assert s == DataPrefix + rest;
    Seqs.Parts(DataPrefix, rest);
    IndexOfAfter(ext, payload, ';');
    Seqs.Parts(ext, payload);
    Seqs.Parts(Base64Marker, Encode(bytes));
    DecodeEncode(bytes);
  }

  /** The first `c` of `a + b` is the first of `b` when `a` has none. */
  lemma {:induction false} IndexOfAfter(a: string, b: string, c: char)
    requires c !in a && |b| > 0 && b[0] == c
    ensures IndexOf(a + b, c) == |a|
  {
    if a == [] {
      assert a + b == b;
    } else {
      assert (a + b)[1..] == a[1..] + b;
      IndexOfAfter(a[1..], b, c);
    }
  }

  /** The record of one extracted image of page `page` (0-based). */
  function Record(page: nat, img: Extracted): ImageRecord {
    ImageRecord(DataUri(img.ext, img.bytes), page, img.ext, |img.bytes|)
  }

  /** A record's 'data' field reads back to its 'format' and the image bytes,
      and its 'size' is the number of those bytes. */
  lemma RecordRoundTrip(page: nat, img: Extracted)
    requires ';' !in img.ext
    ensures var r := Record(page, img);
            && ParseDataUri(r.data) == Some((r.format, img.bytes))
            && r.size == |img.bytes| && r.page == page
  {
    ParseDataUriRoundTrip(img.ext, img.bytes);
  }

  /** The records of one page: one per successful extraction, failures skipped. */
  function PageRecords(page: nat, imgs: PageImages): seq<ImageRecord> {
    if imgs == [] then []
    else
      (match imgs[0] case None => [] case Some(x) => [Record(page, x)])
      + PageRecords(page, imgs[1..])
  }

  /** The records of `pages`, the first of which has index `first`. */
  function RecordsFrom(first: nat, pages: seq<PageImages>): seq<ImageRecord>
    decreases |pages|
  {
    if pages == [] then []
    else PageRecords(first, pages[0]) + RecordsFrom(first + 1, pages[1..])
  }

  /** All records of a document, page by page. */
  function ImageRecords(pages: seq<PageImages>): seq<ImageRecord> {
    RecordsFrom(0, pages)
  }

  lemma {:induction false} PageRecordsAppend(page: nat, a: PageImages, b: PageImages)
    ensures PageRecords(page, a + b) == PageRecords(page, a) + PageRecords(page, b)
  {
    if a == [] {
      assert a + b == b;
    } else {
      assert (a + b)[1..] == a[1..] + b;
      PageRecordsAppend(page, a[1..], b);
    }
  }

  lemma {:induction false} RecordsFromAppend(first: nat, a: seq<PageImages>, b: seq<PageImages>)
    ensures RecordsFrom(first, a + b) == RecordsFrom(first, a) + RecordsFrom(first + |a|, b)
    decreases |a|
  {
    if a == [] {
      assert a + b == b;
    } else {
      Seqs.HeadTail(a, b);
      RecordsFromAppend(first + 1, a[1..], b);
      Seqs.ConcatAssoc3(PageRecords(first, a[0]), RecordsFrom(first + 1, a[1..]), RecordsFrom(first + |a|, b));
    }
  }

  /** Every record of a page carries that page's number. */
  lemma {:induction false} PageRecordsPage(page: nat, imgs: PageImages)
    ensures forall k :: 0 <= k < |PageRecords(page, imgs)| ==> PageRecords(page, imgs)[k].page == page
  {
    if imgs != [] {
      PageRecordsPage(page, imgs[1..]);
    }
  }

  /** The records come page by page: their page numbers lie among the pages
      given and never decrease. */
  lemma RecordsFromPages(first: nat, pages: seq<PageImages>)
    ensures forall k :: 0 <= k < |RecordsFrom(first, pages)| ==>
              first <= RecordsFrom(first, pages)[k].page < first + |pages|
    ensures forall k, l :: 0 <= k < l < |RecordsFrom(first, pages)| ==>
              RecordsFrom(first, pages)[k].page <= RecordsFrom(first, pages)[l].page
  {
    RecordsFromRange(first, pages);
    RecordsFromOrdered(first, pages);
  }

  lemma {:induction false} RecordsFromRange(first: nat, pages: seq<PageImages>)
    ensures forall k :: 0 <= k < |RecordsFrom(first, pages)| ==>
              first <= RecordsFrom(first, pages)[k].page < first + |pages|
    decreases |pages|
  {
    if pages != [] {
      RecordsFromRange(first + 1, pages[1..]);
      PageRecordsPage(first, pages[0]);
      var h, t := PageRecords(first, pages[0]), RecordsFrom(first + 1, pages[1..]);
      var r := h + t;
      assert RecordsFrom(first, pages) == r;
      forall k | 0 <= k < |r|
        ensures first <= r[k].page < first + |pages|
      {
        if k >= |h| {
          assert r[k] == t[k - |h|];
        }
      }
    }
  }

  lemma {:induction false} RecordsFromOrdered(first: nat, pages: seq<PageImages>)
    ensures forall k, l :: 0 <= k < l < |RecordsFrom(first, pages)| ==>
              RecordsFrom(first, pages)[k].page <= RecordsFrom(first, pages)[l].page
    decreases |pages|
  {
    if pages != [] {
      RecordsFromOrdered(first + 1, pages[1..]);
      RecordsFromRange(first + 1, pages[1..]);
      PageRecordsPage(first, pages[0]);
      var h, t := PageRecords(first, pages[0]), RecordsFrom(first + 1, pages[1..]);
      var r := h + t;
      assert RecordsFrom(first, pages) == r;
      forall k, l | 0 <= k < l < |r|
        ensures r[k].page <= r[l].page
      {
        if l < |h| {
        } else if k < |h| {
          assert r[l] == t[l - |h|];
        } else {
          assert r[k] == t[k - |h|] && r[l] == t[l - |h|];
        }
      }
    }
  }

  /** The records of a page are, in order, those of its successful references. */
  lemma PageRecordsInOrder(page: nat, imgs: PageImages)
    ensures var ix := Seqs.Positions(Succeeded, imgs);
            && |PageRecords(page, imgs)| == |ix|
            && forall k :: 0 <= k < |ix| ==> PageRecords(page, imgs)[k] == Record(page, imgs[ix[k]].value)
  {
    var f := RecordOf(page);
    PageRecordsFilterMap(page, imgs);
    Seqs.FilterMapInOrder(f, imgs);
    Seqs.PositionsCongruent(Seqs.Defined(f), imgs, Succeeded, imgs);
  }

  /** The record a reference's outcome gives, if any. */
  function RecordOf(page: nat): Option<Extracted> -> Option<ImageRecord> {
    (x: Option<Extracted>) => match x case None => None case Some(img) => Some(Record(page, img))
  }

  lemma {:induction false} PageRecordsFilterMap(page: nat, imgs: PageImages)
    ensures PageRecords(page, imgs) == Seqs.FilterMap(RecordOf(page), imgs)
  {
    if imgs != [] {
      PageRecordsFilterMap(page, imgs[1..]);
    }
  }

  /** The document's records are the page records concatenated in page order. */
  lemma ImageRecordsByPage(pages: seq<PageImages>)
    ensures ImageRecords(pages) == Seqs.Flatten(seq(|pages|, p requires 0 <= p < |pages| => PageRecords(p, pages[p])))
  {
    RecordsFromByPage(0, pages);
    assert ByPage(0, pages) == seq(|pages|, p requires 0 <= p < |pages| => PageRecords(p, pages[p]));
  }

  /** The records of each page of `pages`, the first of which has index `first`. */
  function ByPage(first: nat, pages: seq<PageImages>): seq<seq<ImageRecord>> {
    seq(|pages|, p requires 0 <= p < |pages| => PageRecords(first + p, pages[p]))
  }

  lemma ByPageCons(first: nat, pages: seq<PageImages>)
    requires pages != []
    ensures ByPage(first, pages) == [PageRecords(first, pages[0])] + ByPage(first + 1, pages[1..])
  {
    var r := ByPage(first, pages);
    var t := ByPage(first + 1, pages[1..]);
    assert r[0] == PageRecords(first, pages[0]);
    assert forall p :: 1 <= p < |pages| ==> r[p] == t[p - 1];
  }

  lemma {:induction false} RecordsFromByPage(first: nat, pages: seq<PageImages>)
    ensures RecordsFrom(first, pages) == Seqs.Flatten(ByPage(first, pages))
    decreases |pages|
  {
    if pages != [] {
      RecordsFromByPage(first + 1, pages[1..]);
      ByPageCons(first, pages);
      Seqs.FlattenCons(PageRecords(first, pages[0]), ByPage(first + 1, pages[1..]));
    }
  }

  /** A reference whose extraction fails is skipped: turning one success into a
      failure removes exactly its record and leaves every other record as it was. */
  lemma FailureSkipped(pages: seq<PageImages>, p: nat, i: nat)
    requires p < |pages| && i < |pages[p]| && pages[p][i].Some?
    ensures var before := ImageRecords(pages);
            var after := ImageRecords(pages[p := pages[p][i := None]]);
            var k := |RecordsFrom(0, pages[..p]) + PageRecords(p, pages[p][..i])|;
            && k < |before|
            && before[k] == Record(p, pages[p][i].value)
            && after == before[..k] + before[k + 1..]
  {
    var page := pages[p];
    var front := RecordsFrom(0, pages[..p]) + PageRecords(p, page[..i]);
    var rest := PageRecords(p, page[i + 1..]) + RecordsFrom(p + 1, pages[p + 1..]);
    RecordsWith(pages, p, i);
    RecordsWithout(pages, p, i);
    SplitAt(ImageRecords(pages), ImageRecords(pages[p := page[i := None]]), front, Record(p, page[i].value), rest);
  }

  lemma RecordsWith(pages: seq<PageImages>, p: nat, i: nat)
    requires p < |pages| && i < |pages[p]| && pages[p][i].Some?
    ensures ImageRecords(pages) ==
            (RecordsFrom(0, pages[..p]) + PageRecords(p, pages[p][..i])) + [Record(p, pages[p][i].value)]
            + (PageRecords(p, pages[p][i + 1..]) + RecordsFrom(p + 1, pages[p + 1..]))
  {
    var page := pages[p];
    var r := Record(p, page[i].value);
    PageAround(p, page, i, page[i]);
    assert PageRecords(p, page) == PageRecords(p, page[..i]) + [r] + PageRecords(p, page[i + 1..]);
    RecordsAround(pages, p, page);
    assert pages[p := page] == pages;
    Seqs.Regroup(RecordsFrom(0, pages[..p]), PageRecords(p, page[..i]), [r],
            PageRecords(p, page[i + 1..]), RecordsFrom(p + 1, pages[p + 1..]));
  }

  lemma RecordsWithout(pages: seq<PageImages>, p: nat, i: nat)
    requires p < |pages| && i < |pages[p]|
    ensures ImageRecords(pages[p := pages[p][i := None]]) ==
            (RecordsFrom(0, pages[..p]) + PageRecords(p, pages[p][..i]))
            + (PageRecords(p, pages[p][i + 1..]) + RecordsFrom(p + 1, pages[p + 1..]))
  {
    var page := pages[p];
    PageAround(p, page[i := None], i, None);
    assert page[i := None][..i] == page[..i] && page[i := None][i + 1..] == page[i + 1..];
    RecordsAround(pages, p, page[i := None]);
  }

  /** The records of a page around its reference `i`, whose outcome is `o`. */
  lemma PageAround(p: nat, page: PageImages, i: nat, o: Option<Extracted>)
    requires i < |page| && page[i] == o
    ensures PageRecords(p, page) ==
            PageRecords(p, page[..i]) + (match o case None => [] case Some(x) => [Record(p, x)])
            + PageRecords(p, page[i + 1..])
  {
    Seqs.UpdateSplit(page, i, o);
    assert page[i := o] == page;
    PageRecordsAppend(p, page[..i] + [o], page[i + 1..]);
    PageRecordsAppend(p, page[..i], [o]);
    assert [o][1..] == [];
  }

  /** The records of a document whose page `p` is `q`. */
  lemma RecordsAround(pages: seq<PageImages>, p: nat, q: PageImages)
    requires p < |pages|
    ensures RecordsFrom(0, pages[p := q]) ==
            RecordsFrom(0, pages[..p]) + PageRecords(p, q) + RecordsFrom(p + 1, pages[p + 1..])
  {
    Seqs.UpdateSplit(pages, p, q);
    RecordsFromAppend(0, pages[..p] + [q], pages[p + 1..]);
    RecordsFromAppend(0, pages[..p], [q]);
    RecordsFromOne(p, q);
  }

  lemma RecordsFromOne(first: nat, q: PageImages)
    ensures RecordsFrom(first, [q]) == PageRecords(first, q)
  {
    assert [q][1..] == [];
    assert RecordsFrom(first, [q]) == PageRecords(first, q) + RecordsFrom(first + 1, []);
  }

  lemma SplitAt<T>(s: seq<T>, t: seq<T>, front: seq<T>, x: T, rest: seq<T>)
    requires s == front + [x] + rest && t == front + rest
    ensures |front| < |s| && s[|front|] == x && t == s[..|front|] + s[|front| + 1..]
  {
    assert s[..|front|] == front && s[|front| + 1..] == rest;
  }

  lemma PageRecordsStep(page: nat, imgs: PageImages, i: nat)
    requires i < |imgs|
    ensures PageRecords(page, imgs[..i + 1]) ==
            PageRecords(page, imgs[..i]) + match imgs[i] case None => [] case Some(x) => [Record(page, x)]
  {
    PageRecordsAppend(page, imgs[..i], [imgs[i]]);
    assert imgs[..i + 1] == imgs[..i] + [imgs[i]];
  }

  lemma RecordsFromStep(pages: seq<PageImages>, p: nat)
    requires p < |pages|
    ensures RecordsFrom(0, pages[..p + 1]) == RecordsFrom(0, pages[..p]) + PageRecords(p, pages[p])
  {
    RecordsFromAppend(0, pages[..p], [pages[p]]);
    assert pages[..p + 1] == pages[..p] + [pages[p]];
    RecordsFromOne(p, pages[p]);
  }

  /** `_extract_images` as written: a loop over the pages and, inside it, over the
      image references, appending one record per extraction that succeeds. */
  method ExtractImages(pages: seq<PageImages>) returns (images: seq<ImageRecord>)
    ensures images == ImageRecords(pages)
  {
    images := [];
    var pageNum := 0;
    while pageNum < |pages|
      invariant 0 <= pageNum <= |pages|
      invariant images == RecordsFrom(0, pages[..pageNum])
    {
      var imageList := pages[pageNum];
      ghost var before := images;
      var imgIndex := 0;
      while imgIndex < |imageList|
        invariant 0 <= imgIndex <= |imageList|
        invariant images == before + PageRecords(pageNum, imageList[..imgIndex])
      {
        match imageList[imgIndex] {
          case None =>
            // the extraction raised: logged and skipped
          case Some(img) =>
            images := images + [Record(pageNum, img)];
        }
        PageRecordsStep(pageNum, imageList, imgIndex);
        imgIndex := imgIndex + 1;
      }
      assert imageList[..|imageList|] == imageList;
      RecordsFromStep(pages, pageNum);
      pageNum := pageNum + 1;
    }
    assert pages[..|pages|] == pages;
  }
}

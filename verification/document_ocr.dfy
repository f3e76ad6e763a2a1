/**
 * `DocumentOCR.ocr_image` from the raw detections onward, and the per-page
 * aggregation of `DocumentOCR.ocr_pages`. The EasyOCR reader is not modelled:
 * each page image arrives together with the detections `readtext` returned
 * for it.
 */
module DocumentOcr {
  import opened OcrBlocks
  import opened ReadingOrder

  /** One rasterised page: its path and the raw `readtext` output for it. */
  datatype PageImage = PageImage(path: string, detections: seq<RawItem>)

  /** One entry of `pages`: 1-based index, image path, blocks in reading order. */
  datatype Page = Page(pageIndex: int, imagePath: string, blocks: seq<Block>)

  /** The dictionary `ocr_pages` returns. */
  datatype OcrResult = OcrResult(pageCount: int, totalBlocks: int, pages: seq<Page>)

  /** `ocr_image` after `readtext` (document_ocr.py:53-56): normalise, filter, sort. */
  function OcrImage(raw: seq<RawItem>, minConf: real): (r: seq<Block>)
    ensures |r| <= |raw|
  {
    var kept := FilterBlocks(Normalize(raw), minConf);
    assert |kept| <= |Normalize(raw)| by { SubsequenceLength(kept, Normalize(raw)); }
    SortReadingOrder(kept)
  }

  /**
   * Every block `ocr_image` returns is well formed, has non-empty text and
   * enough confidence (even when the raw text was whitespace only), the
   * blocks are exactly the ones the filter keeps, and they come in reading
   * order under their own tolerance.
   */
  lemma OcrImageOutput(raw: seq<RawItem>, minConf: real)
    ensures var r := OcrImage(raw, minConf);
            && (forall b :: b in r ==> WellFormed(b) && b.text != "" && b.confidence >= minConf)
            && multiset(r) == multiset(FilterBlocks(Normalize(raw), minConf))
            && SortedBy(r, LineKey(YTolerance(r)))
            && Stable(r, FilterBlocks(Normalize(raw), minConf), LineKey(YTolerance(r)))
  {
    var normalized := Normalize(raw);
    var kept := FilterBlocks(normalized, minConf);
    var r := OcrImage(raw, minConf);
    assert multiset(r) == multiset(kept);
    forall b | b in r
      ensures WellFormed(b) && b.text != "" && b.confidence >= minConf
    {
      assert b in multiset(kept);
      assert Keep(b, minConf);
      assert multiset(normalized)[b] > 0;
      assert b in normalized;
    }
    SortReadingOrderTolerance(kept);
  }

  lemma {:induction false} SubsequenceLength<T>(a: seq<T>, b: seq<T>)
    requires IsSubsequence(a, b)
    ensures |a| <= |b|
    decreases |b|
  {
    if a != [] {
      if a[0] == b[0] && IsSubsequence(a[1..], b[1..]) {
        SubsequenceLength(a[1..], b[1..]);
      } else {
        SubsequenceLength(a, b[1..]);
      }
    }
  }

  /** The sum of the block counts of `pages`. */
  function BlockCount(pages: seq<Page>): nat {
    if pages == [] then 0 else |pages[0].blocks| + BlockCount(pages[1..])
  }

  lemma BlockCountSnoc(pages: seq<Page>, p: Page)
    ensures BlockCount(pages + [p]) == BlockCount(pages) + |p.blocks|
  {
    if pages != [] {
      assert (pages + [p])[1..] == pages[1..] + [p];
      BlockCountSnoc(pages[1..], p);
    }
  }

  /** The page `ocr_pages` builds for the `i`-th image. */
  function PageOf(images: seq<PageImage>, i: nat, minConf: real): Page
    requires i < |images|
  {
    Page(i + 1, images[i].path, OcrImage(images[i].detections, minConf))
  }

  /** The pages built for the first `n` images. */
  function PagesUpTo(images: seq<PageImage>, n: nat, minConf: real): (pages: seq<Page>)
    requires n <= |images|
    ensures |pages| == n
    ensures forall i :: 0 <= i < n ==> pages[i] == PageOf(images, i, minConf)
  {
    seq(n, i requires 0 <= i < n => PageOf(images, i, minConf))
  }

  lemma PagesUpToSnoc(images: seq<PageImage>, n: nat, minConf: real)
    requires n < |images|
    ensures PagesUpTo(images, n + 1, minConf) == PagesUpTo(images, n, minConf) + [PageOf(images, n, minConf)]
  {
    var a, b := PagesUpTo(images, n, minConf), PagesUpTo(images, n + 1, minConf);
    assert forall i :: 0 <= i < n ==> b[i] == a[i];
    SnocByIndex(a, PageOf(images, n, minConf), b);
  }

  lemma SnocByIndex<T>(a: seq<T>, x: T, b: seq<T>)
    requires |b| == |a| + 1 && b[|a|] == x
    requires forall i :: 0 <= i < |a| ==> b[i] == a[i]
    ensures b == a + [x]
  {
  }

  /**
   * `ocr_pages`: one page per image, numbered from 1 in input order, each
   * holding `ocr_image` of its detections; `page_count` is the number of
   * images and `total_blocks` the sum of the per-page block counts.
   */
  method OcrPages(images: seq<PageImage>, minConf: real) returns (res: OcrResult)
    ensures res.pageCount == |images| && |res.pages| == |images|
    ensures forall i :: 0 <= i < |images| ==>
              && res.pages[i].pageIndex == i + 1
              && res.pages[i].imagePath == images[i].path
              && res.pages[i].blocks == OcrImage(images[i].detections, minConf)
    ensures res.totalBlocks == BlockCount(res.pages)
  {
    var pages: seq<Page> := [];
    var total := 0;
    var idx := 0;
    while idx < |images|
      invariant idx <= |images|
      invariant pages == PagesUpTo(images, idx, minConf)
      invariant total == BlockCount(pages)
    {
      var page := PageOf(images, idx, minConf);
      BlockCountSnoc(pages, page);
      PagesUpToSnoc(images, idx, minConf);
      total := total + |page.blocks|;
      pages := pages + [page];
      idx := idx + 1;
    }
    res := OcrResult(|images|, total, pages);
  }
}

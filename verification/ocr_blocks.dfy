/**
 * Normalisation and filtering of raw EasyOCR detections
 * (`DocumentOCR._bbox_to_rect`, `_normalize_easyocr_result`, `_filter_blocks`).
 *
 * Coordinates and confidences are `real`s: the model does not follow IEEE
 * rounding.
 */
module OcrBlocks {
  import opened Wrappers
  import Text

  /**
   * The bounding box of a detection as EasyOCR hands it over: normally a list
   * of corner points `[[x1, y1], ..., [x4, y4]]`, each point a list of
   * coordinates. `Unreadable` stands for any other value (a non-list, a point
   * whose coordinates are not numbers) on which the source's conversion raises.
   */
  datatype RawBox = Corners(points: seq<seq<real>>) | Unreadable

  /** The axis-aligned rectangle `(x_min, y_min, x_max, y_max)`. */
  datatype Rect = Rect(xMin: real, yMin: real, xMax: real, yMax: real)

  /**
   * One item of `readtext` output. `Detection` is a list or tuple of at least
   * three elements `(bbox, text, conf)`; extra elements are ignored.
   * `Malformed` is anything else: a non-sequence or one shorter than three.
   * A `None` text is `None`.
   */
  datatype RawItem = Malformed | Detection(bbox: RawBox, text: Option<string>, conf: real)

  /**
   * A normalised OCR block: the dictionary built at document_ocr.py:101-115.
   * `isMath` is the key the math pass adds; `None` while it is absent.
   */
  datatype Block = Block(
    text: string,
    confidence: real,
    bbox: RawBox,
    xMin: real, yMin: real, xMax: real, yMax: real,
    cx: real, cy: real, w: real, h: real,
    isMath: Option<bool>)

  /** The smallest element of a non-empty sequence (Python `min`). */
  function Min(xs: seq<real>): (m: real)
    requires |xs| > 0
    ensures forall i :: 0 <= i < |xs| ==> m <= xs[i]
    ensures exists i :: 0 <= i < |xs| && xs[i] == m
  {
    if |xs| == 1 then xs[0]
    else
      var m := Min(xs[1..]);
      assert forall i :: 1 <= i < |xs| ==> xs[1..][i - 1] == xs[i];
      if xs[0] <= m then xs[0] else m
  }

  /** The largest element of a non-empty sequence (Python `max`). */
  function Max(xs: seq<real>): (m: real)
    requires |xs| > 0
    ensures forall i :: 0 <= i < |xs| ==> xs[i] <= m
    ensures exists i :: 0 <= i < |xs| && xs[i] == m
  {
    if |xs| == 1 then xs[0]
    else
      var m := Max(xs[1..]);
      assert forall i :: 1 <= i < |xs| ==> xs[1..][i - 1] == xs[i];
      if m <= xs[0] then xs[0] else m
  }

  /**
   * A box the conversion can read: at least one point (`min` of an empty list
   * raises) and every point has an x and a y (`pt[0]`, `pt[1]`).
   */
  predicate Readable(b: RawBox) {
    && b.Corners?
    && |b.points| > 0
    && forall k :: 0 <= k < |b.points| ==> |b.points[k]| >= 2
  }

  /** The `c`-th coordinate of every point. */
  function Column(points: seq<seq<real>>, c: nat): (col: seq<real>)
    requires forall k :: 0 <= k < |points| ==> |points[k]| > c
    ensures |col| == |points|
    ensures forall k :: 0 <= k < |points| ==> col[k] == points[k][c]
  {
    seq(|points|, k requires 0 <= k < |points| => points[k][c])
  }

  /**
   * `_bbox_to_rect`: the min and max of the corner x's and y's, or the
   * all-zero rectangle when the box cannot be read.
   */
  function BboxToRect(b: RawBox): (r: Rect)
    ensures r.xMin <= r.xMax && r.yMin <= r.yMax
    ensures !Readable(b) ==> r == Rect(0.0, 0.0, 0.0, 0.0)
    ensures Readable(b) ==>
      && (forall k :: 0 <= k < |b.points| ==>
            r.xMin <= b.points[k][0] <= r.xMax && r.yMin <= b.points[k][1] <= r.yMax)
      && (exists k :: 0 <= k < |b.points| && b.points[k][0] == r.xMin)
      && (exists k :: 0 <= k < |b.points| && b.points[k][0] == r.xMax)
      && (exists k :: 0 <= k < |b.points| && b.points[k][1] == r.yMin)
      && (exists k :: 0 <= k < |b.points| && b.points[k][1] == r.yMax)
  {
    if Readable(b) then
      var xs := Column(b.points, 0);
      var ys := Column(b.points, 1);
      assert xs[0] == b.points[0][0] && ys[0] == b.points[0][1];
      Rect(Min(xs), Min(ys), Max(xs), Max(ys))
    else
      Rect(0.0, 0.0, 0.0, 0.0)
  }

  /** Python truthiness of the text field: `None` and `""` are falsy. */
  predicate TextIsTruthy(t: Option<string>) {
    t.Some? && t.value != ""
  }

  /** The items `_normalize_easyocr_result` turns into blocks. */
  predicate Accepted(item: RawItem) {
    item.Detection? && TextIsTruthy(item.text)
  }

  /**
   * The invariants every normalised block satisfies: ordered bounds, derived
   * centre and size, stripped text, and no `is_math` key yet.
   */
  predicate WellFormed(b: Block) {
    && b.xMin <= b.xMax && b.yMin <= b.yMax
    && b.cx == (b.xMin + b.xMax) / 2.0
    && b.cy == (b.yMin + b.yMax) / 2.0
    && b.w == b.xMax - b.xMin && b.w >= 0.0
    && b.h == b.yMax - b.yMin && b.h >= 0.0
    && (b.text != "" ==> !Text.IsSpace(b.text[0]) && !Text.IsSpace(b.text[|b.text| - 1]))
    && b.isMath.None?
  }

  /** The block built from one accepted detection. */
  function MakeBlock(bbox: RawBox, text: string, conf: real): (b: Block)
    ensures WellFormed(b)
    ensures b.text == Text.Strip(text)
    ensures b.text == "" <==> Text.AllSpace(text)
    ensures b.confidence == conf && b.bbox == bbox
    ensures Rect(b.xMin, b.yMin, b.xMax, b.yMax) == BboxToRect(bbox)
  {
    var r := BboxToRect(bbox);
    var t := Text.Strip(text);
    assert t != "" ==> !Text.IsSpace(t[0]) && !Text.IsSpace(t[|t| - 1]);
    Block(t, conf, bbox,
          r.xMin, r.yMin, r.xMax, r.yMax,
          (r.xMin + r.xMax) / 2.0, (r.yMin + r.yMax) / 2.0,
          r.xMax - r.xMin, r.yMax - r.yMin,
          None)
  }

  /** The number of items of `raw` that produce a block. */
  function CountAccepted(raw: seq<RawItem>): nat {
    if raw == [] then 0
    else (if Accepted(raw[0]) then 1 else 0) + CountAccepted(raw[1..])
  }

  /**
   * `_normalize_easyocr_result`: one well-formed block per accepted item, in
   * input order; malformed items and items with falsy text are skipped.
   */
  function Normalize(raw: seq<RawItem>): (r: seq<Block>)
    ensures |r| == CountAccepted(raw) <= |raw|
    ensures forall b :: b in r ==> WellFormed(b)
    ensures forall b :: b in r ==>
              exists item :: item in raw && Accepted(item)
                             && b == MakeBlock(item.bbox, item.text.value, item.conf)
  {
    if raw == [] then []
    else
      var rest := Normalize(raw[1..]);
      assert forall item :: item in raw[1..] ==> item in raw;
      if Accepted(raw[0]) then
        [MakeBlock(raw[0].bbox, raw[0].text.value, raw[0].conf)] + rest
      else
        rest
  }

  /**
   * Normalisation works item by item in input order: normalising two runs
   * of detections one after the other is normalising them together.
   */
  lemma {:induction false} NormalizeConcat(a: seq<RawItem>, b: seq<RawItem>)
    ensures Normalize(a + b) == Normalize(a) + Normalize(b)
  {
    if a != [] {
      assert (a + b)[0] == a[0];
      assert (a + b)[1..] == a[1..] + b;
      NormalizeConcat(a[1..], b);
      if Accepted(a[0]) {
        var x := MakeBlock(a[0].bbox, a[0].text.value, a[0].conf);
        assert [x] + (Normalize(a[1..]) + Normalize(b)) == ([x] + Normalize(a[1..])) + Normalize(b);
      }
    } else {
      assert a + b == b;
    }
  }

  /** The condition `_filter_blocks` keeps a block under. */
  predicate Keep(b: Block, minConf: real) {
    b.confidence >= minConf && b.text != ""
  }

  /** `a` is `b` with some elements deleted, the rest in their original order. */
  predicate IsSubsequence<T(==)>(a: seq<T>, b: seq<T>)
    decreases |b|
  {
    if a == [] then true
    else if b == [] then false
    else (a[0] == b[0] && IsSubsequence(a[1..], b[1..])) || IsSubsequence(a, b[1..])
  }

  /**
   * `_filter_blocks`: exactly the blocks with confidence at least `minConf`
   * and non-empty text, each as often as in the input, in input order.
   */
  function FilterBlocks(blocks: seq<Block>, minConf: real): (r: seq<Block>)
    ensures forall b :: b in r ==> Keep(b, minConf)
    ensures forall b :: multiset(r)[b] == if Keep(b, minConf) then multiset(blocks)[b] else 0
    ensures IsSubsequence(r, blocks)
  {
    if blocks == [] then []
    else
      var rest := FilterBlocks(blocks[1..], minConf);
      assert blocks == [blocks[0]] + blocks[1..];
      if Keep(blocks[0], minConf) then
        assert ([blocks[0]] + rest)[1..] == rest;
        [blocks[0]] + rest
      else
        rest
  }

  /** Filtering a sequence whose blocks all pass returns it unchanged. */
  lemma {:induction false} FilterKeepsPassing(blocks: seq<Block>, minConf: real)
    requires forall i :: 0 <= i < |blocks| ==> Keep(blocks[i], minConf)
    ensures FilterBlocks(blocks, minConf) == blocks
  {
    if blocks != [] {
      var t := blocks[1..];
      assert forall i :: 0 <= i < |t| ==> t[i] == blocks[i + 1];
      FilterKeepsPassing(t, minConf);
      assert Keep(blocks[0], minConf);
      assert blocks == [blocks[0]] + t;
    }
  }

  /** `_filter_blocks` is idempotent. */
  lemma FilterIdempotent(blocks: seq<Block>, minConf: real)
    ensures FilterBlocks(FilterBlocks(blocks, minConf), minConf) == FilterBlocks(blocks, minConf)
  {
    var r := FilterBlocks(blocks, minConf);
    assert forall i :: 0 <= i < |r| ==> r[i] in r;
    FilterKeepsPassing(r, minConf);
  }
}

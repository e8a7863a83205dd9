/**
 * Rectangle geometry of the PDF pipeline (utils/pdf_to_text_process.py): intersection over union
 * of two boxes, the "overlaps any region" test, and the "inside any table box" test used to mask
 * words that belong to a table. Boxes are `(x0, y0, x1, y1)` in page coordinates with a top-left
 * origin; coordinates are exact reals.
 */
module Geometry {

  datatype Rect = Rect(x0: real, y0: real, x1: real, y1: real)

  function Max(a: real, b: real): real { if a >= b then a else b }
  function Min(a: real, b: real): real { if a <= b then a else b }

  /** Width of the overlap of the two x-ranges, clipped at 0. */
  function InterWidth(a: Rect, b: Rect): real {
    Max(0.0, Min(a.x1, b.x1) - Max(a.x0, b.x0))
  }

  function InterHeight(a: Rect, b: Rect): real {
    Max(0.0, Min(a.y1, b.y1) - Max(a.y0, b.y0))
  }

  function InterArea(a: Rect, b: Rect): real {
    InterWidth(a, b) * InterHeight(a, b)
  }

  /** Area of a box, taking a negative side as 0. */
  function Area(a: Rect): real {
    Max(0.0, a.x1 - a.x0) * Max(0.0, a.y1 - a.y0)
  }

  /** A box with positive width and positive height. */
  predicate NonDegenerate(a: Rect) {
    a.x0 < a.x1 && a.y0 < a.y1
  }

  /** `rect_iou(a, b)`: intersection area over union area, 0 when the clipped intersection is empty. */
  function RectIoU(a: Rect, b: Rect): (r: real)
    ensures 0.0 <= r <= 1.0
    ensures r == 0.0 <==> InterArea(a, b) == 0.0
  {
    var inter := InterArea(a, b);
    if inter == 0.0 then 0.0
    else
      var union := Area(a) + Area(b) - inter;
      UnionCoversIntersection(a, b);
      if union <= 0.0 then 0.0
      else
        RatioAtMostOne(inter, union);
        inter / union
  }

  lemma RatioAtMostOne(p: real, q: real)
    requires 0.0 < p <= q
    ensures 0.0 < p / q <= 1.0
  {
    assert p / q * q == p;
  }

  lemma MulMono(x: real, y: real, u: real, v: real)
    requires 0.0 <= x <= u && 0.0 <= y <= v
    ensures x * y <= u * v
  {
    assert x * y <= u * y;
    assert u * y <= u * v;
  }

  /**
   * A non-empty intersection is no larger than either box, so the union is at least the
   * intersection and the `union <= 0` branch of `rect_iou` is never taken once the intersection
   * is non-empty.
   */
  lemma UnionCoversIntersection(a: Rect, b: Rect)
    requires InterArea(a, b) != 0.0
    ensures 0.0 < InterArea(a, b) <= Area(a) && InterArea(a, b) <= Area(b)
    ensures Area(a) + Area(b) - InterArea(a, b) >= InterArea(a, b)
  {
    var iw, ih := InterWidth(a, b), InterHeight(a, b);
    assert iw > 0.0 && ih > 0.0;
    MulMono(iw, ih, Max(0.0, a.x1 - a.x0), Max(0.0, a.y1 - a.y0));
    MulMono(iw, ih, Max(0.0, b.x1 - b.x0), Max(0.0, b.y1 - b.y0));
  }

  /** IoU does not depend on the order of its arguments. */
  lemma RectIoUSymmetric(a: Rect, b: Rect)
    ensures RectIoU(a, b) == RectIoU(b, a)
  {
    assert InterWidth(a, b) == InterWidth(b, a);
    assert InterHeight(a, b) == InterHeight(b, a);
  }

  /** A non-degenerate box overlaps itself completely. */
  lemma RectIoUSelf(a: Rect)
    requires NonDegenerate(a)
    ensures RectIoU(a, a) == 1.0
  {
    assert InterArea(a, a) == Area(a) > 0.0;
  }

  /** Boxes that are apart, or only touch, along x or along y have IoU 0. */
  lemma RectIoUSeparated(a: Rect, b: Rect)
    requires a.x1 <= b.x0 || b.x1 <= a.x0 || a.y1 <= b.y0 || b.y1 <= a.y0
    ensures RectIoU(a, b) == 0.0
  {
    assert InterWidth(a, b) == 0.0 || InterHeight(a, b) == 0.0;
  }

  /** A box with no area has IoU 0 with every box. */
  lemma RectIoUDegenerate(a: Rect, b: Rect)
    requires !NonDegenerate(a)
    ensures RectIoU(a, b) == 0.0
  {
    assert InterWidth(a, b) == 0.0 || InterHeight(a, b) == 0.0;
  }

  /** `overlaps_any(bbox, regions, iou_thresh)`: some region reaches the IoU threshold with `bbox`. */
  function OverlapsAny(bbox: Rect, regions: seq<Rect>, iouThresh: real): (r: bool)
    ensures r <==> exists i :: 0 <= i < |regions| && RectIoU(bbox, regions[i]) >= iouThresh
  {
    if regions == [] then false
    else RectIoU(bbox, regions[0]) >= iouThresh || OverlapsAny(bbox, regions[1..], iouThresh)
  }

  /** The default threshold of `overlaps_any`. */
  const DefaultIoUThresh: real := 0.05

  /** The default margin of `inside_any`. */
  const InsideMargin: real := 0.5

  /** `outer` grown by `margin` on each of its four sides. */
  function Widen(outer: Rect, margin: real): Rect {
    Rect(outer.x0 - margin, outer.y0 - margin, outer.x1 + margin, outer.y1 + margin)
  }

  /** Every side of `inner` lies within `outer` (borders included). */
  predicate Within(inner: Rect, outer: Rect) {
    outer.x0 <= inner.x0 && inner.x1 <= outer.x1 && outer.y0 <= inner.y0 && inner.y1 <= outer.y1
  }

  /**
   * `inside_any(bbox, table_bboxes, margin)` nested in `extract_text_without_tables`: the boxes are
   * scanned in order and the first one that holds `bbox` within its `margin` answers true.
   */
  function InsideAny(bbox: Rect, tableBoxes: seq<Rect>, margin: real): (r: bool)
    ensures r <==> exists i :: 0 <= i < |tableBoxes| && Within(bbox, Widen(tableBoxes[i], margin))
  {
    if tableBoxes == [] then false
    else
      var t := tableBoxes[0];
      if bbox.x0 >= t.x0 - margin && bbox.x1 <= t.x1 + margin && bbox.y0 >= t.y0 - margin && bbox.y1 <= t.y1 + margin
      then true
      else InsideAny(bbox, tableBoxes[1..], margin)
  }

  /** A box lies inside any box that contains it with a non-negative margin; IoU would not say so for a small word. */
  lemma InsideAnyOfContained(bbox: Rect, tableBoxes: seq<Rect>, k: nat, margin: real)
    requires k < |tableBoxes| && margin >= 0.0
    requires Within(bbox, tableBoxes[k])
    ensures InsideAny(bbox, tableBoxes, margin)
  {
    assert Within(bbox, Widen(tableBoxes[k], margin));
  }
}

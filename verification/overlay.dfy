/**
 * The annotation overlay: text-box geometry, the eraser's hit test
 * (`find_annotation_at`) and the arrow-head guard.  Pixel sizes scale with
 * the rendered page height relative to the 842-point long side of A4.
 */
module Overlay {
  import opened Wrappers
  import opened Numeric
  import opened Geometry
  import opened Models
  import Text
  import Search

  const MarkerRadius: int := 12
  const TextFontPt: int := 9
  const TextPad: int := 3
  const ResizeHandle: int := 8
  const BasePageHeight: real := 842.0
  /** Default pixel tolerance of the eraser hit test. */
  const EraserTolerance: real := 20.0

  /**
   * Qt font metrics, which the model does not compute: the advance width of
   * one line at a point size, and the height word-wrapped text needs inside a
   * given inner width.
   */
  datatype FontMetrics = FontMetrics(advance: (int, string) -> int, wrapHeight: (int, int, string) -> int)

  /** `max(k, round(base * s))` with `s = h / 842`: a size that scales with the page. */
  function Scaled(base: int, minimum: int, h: int): (r: int)
    ensures r >= minimum
  {
    MaxInt(minimum, RoundHalfEven(base as real * (h as real / BasePageHeight)))
  }

  function FontPt(h: int): int {
    Scaled(TextFontPt, 4, h)
  }

  function Pad(h: int): (p: int)
    ensures p >= 1
  {
    Scaled(TextPad, 1, h)
  }

  function MaxAdvance(fm: FontMetrics, font: int, lines: seq<string>): (r: int)
    ensures forall k :: 0 <= k < |lines| ==> fm.advance(font, lines[k]) <= r
    ensures |lines| == 0 ==> r == 0
    ensures |lines| > 0 ==> exists k :: 0 <= k < |lines| && r == fm.advance(font, lines[k])
  {
    if |lines| == 0 then 0
    else
      var rest := MaxAdvance(fm, font, lines[1..]);
      var here := fm.advance(font, lines[0]);
      if |lines| == 1 then here
      else if here >= rest then here
      else
        assert exists k :: 1 <= k < |lines| && rest == fm.advance(font, lines[k]) by {
          var k :| 0 <= k < |lines[1..]| && rest == fm.advance(font, lines[1..][k]);
          assert lines[1..][k] == lines[k + 1];
        }
        rest
  }

  /**
   * `_text_box_size`: the pixel width and height of a text box.  With a
   * stored width fraction the width follows the page width; without one it
   * fits the longest line plus padding (an empty text counts as one empty
   * line).  It is never narrower than 20 pixels, and the height is the
   * wrapped text height plus padding on both sides.
   */
  function TextBoxSize(fm: FontMetrics, text: string, widthFrac: Option<real>, w: int, h: int): (r: (int, int))
    ensures r.0 >= 20
    ensures widthFrac.Some? ==> r.0 == MaxInt(Trunc(widthFrac.value * w as real), 20)
    ensures widthFrac.None? ==>
      var lines := Text.Split(text, '\n');
      (forall k :: 0 <= k < |lines| ==> fm.advance(FontPt(h), lines[k]) + 2 * Pad(h) <= r.0)
      && (r.0 == 20 || r.0 == MaxAdvance(fm, FontPt(h), lines) + 2 * Pad(h))
    ensures r.1 == fm.wrapHeight(FontPt(h), r.0 - 2 * Pad(h), text) + 2 * Pad(h)
  {
    var font := FontPt(h);
    var p := Pad(h);
    var bw :=
      if widthFrac.Some? then MaxInt(Trunc(widthFrac.value * w as real), 20)
      else
        var lines := if |text| > 0 then Text.Split(text, '\n') else [""];
        assert |text| == 0 ==> Text.Split(text, '\n') == [""];
        MaxInt(MaxAdvance(fm, font, lines) + p * 2, 20);
    (bw, fm.wrapHeight(font, bw - p * 2, text) + p * 2)
  }

  /** A text annotation that shows a box: type "text" with non-empty text. */
  predicate HasTextBox(a: Annotation) {
    a.kind == "text" && a.text.Some? && |a.text.value| > 0
  }

  /** `get_text_box_rect`: the box of a non-empty text annotation, anchored at its position. */
  function TextBoxRect(fm: FontMetrics, a: Annotation, w: int, h: int): (r: Option<Rect>)
    ensures r.Some? <==> HasTextBox(a)
    ensures r.Some? ==> r.value.left == Trunc(a.x * w as real) && r.value.top == Trunc(a.y * h as real)
    ensures r.Some? ==> r.value.width >= 20
  {
    if !HasTextBox(a) then None
    else
      var size := TextBoxSize(fm, a.text.value, a.width, w, h);
      Some(Rect(Trunc(a.x * w as real), Trunc(a.y * h as real), size.0, size.1))
  }

  predicate IsSegmentKind(kind: string) {
    kind == "line" || kind == "arrow"
  }

  predicate HasEndPoint(a: Annotation) {
    a.x2.Some? && a.y2.Some?
  }

  /** Which of the eraser's four tests an annotation gets. */
  datatype HitShape = SegmentShape | CircleShape | TextShape | PointShape

  function EraserShape(a: Annotation): HitShape {
    if IsSegmentKind(a.kind) && HasEndPoint(a) then SegmentShape
    else if a.kind == "circle" && HasEndPoint(a) then CircleShape
    else if HasTextBox(a) then TextShape
    else PointShape
  }

  /** A page fraction (or a difference of fractions) in pixels. */
  function Px(v: real, size: int): real {
    v * size as real
  }

  /**
   * Does the eraser at (`px`, `py`) (page fractions) touch `a`?  `sq` is the
   * square root `math.hypot` takes.
   */
  predicate EraserHit(sq: real -> real, fm: FontMetrics, a: Annotation, px: real, py: real, w: int, h: int, tol: real) {
    match EraserShape(a)
    case SegmentShape =>
      PtSegDist(sq, Px(px, w), Px(py, h), Px(a.x, w), Px(a.y, h), Px(a.x2.value, w), Px(a.y2.value, h)) <= tol
    case CircleShape =>
      var radius := sq(DistSq(Px(a.x2.value - a.x, w), Px(a.y2.value - a.y, h)));
      var dist := sq(DistSq(Px(px, w) - Px(a.x, w), Px(py, h) - Px(a.y, h)));
      -tol <= dist - radius <= tol
    case TextShape =>
      var rect := TextBoxRect(fm, a, w, h);
      rect.Some? && rect.value.Contains(Trunc(Px(px, w)), Trunc(Px(py, h)))
    case PointShape =>
      sq(DistSq(Px(a.x - px, w), Px(a.y - py, h))) <= tol
  }

  /**
   * With a genuine square root the segment and point tests compare squared
   * pixel distances with the squared tolerance.
   */
  lemma EraserHitSquared(sq: real -> real, fm: FontMetrics, a: Annotation, px: real, py: real, w: int, h: int, tol: real)
    requires IsSqrt(sq) && tol >= 0.0
    ensures EraserShape(a) == SegmentShape ==>
      (EraserHit(sq, fm, a, px, py, w, h, tol) <==>
        PtSegDistSq(Px(px, w), Px(py, h), Px(a.x, w), Px(a.y, h), Px(a.x2.value, w), Px(a.y2.value, h)) <= tol * tol)
    ensures EraserShape(a) == PointShape ==>
      (EraserHit(sq, fm, a, px, py, w, h, tol) <==> DistSq(Px(a.x - px, w), Px(a.y - py, h)) <= tol * tol)
  {
    if EraserShape(a) == SegmentShape {
      SqrtLeIff(sq, PtSegDistSq(Px(px, w), Px(py, h), Px(a.x, w), Px(a.y, h), Px(a.x2.value, w), Px(a.y2.value, h)), tol);
    } else if EraserShape(a) == PointShape {
      SqrtLeIff(sq, DistSq(Px(a.x - px, w), Px(a.y - py, h)), tol);
    }
  }

  /** Which annotations the eraser would hit: those on the page under the pointer. */
  function EraserHits(sq: real -> real, fm: FontMetrics, anns: seq<Annotation>, page: int,
                      px: real, py: real, w: int, h: int, tol: real): (bs: seq<bool>)
    ensures |bs| == |anns|
    ensures forall j :: 0 <= j < |anns| ==> bs[j] == (anns[j].page == page && EraserHit(sq, fm, anns[j], px, py, w, h, tol))
  {
    seq(|anns|, j requires 0 <= j < |anns| => anns[j].page == page && EraserHit(sq, fm, anns[j], px, py, w, h, tol))
  }

  /**
   * `find_annotation_at`: the eraser's target.  It scans front to back, so
   * of several annotations under the pointer on `page` the lowest index wins;
   * -1 when none is hit.
   */
  function FindAnnotationAt(sq: real -> real, fm: FontMetrics, anns: seq<Annotation>, page: int,
                            px: real, py: real, w: int, h: int, tol: real): (r: int)
    ensures -1 <= r < |anns|
    ensures r >= 0 ==> anns[r].page == page && EraserHit(sq, fm, anns[r], px, py, w, h, tol)
    ensures r >= 0 ==> forall j :: 0 <= j < r && anns[j].page == page ==> !EraserHit(sq, fm, anns[j], px, py, w, h, tol)
    ensures r == -1 <==> forall j :: 0 <= j < |anns| && anns[j].page == page ==> !EraserHit(sq, fm, anns[j], px, py, w, h, tol)
  {
    Search.FirstFrom(EraserHits(sq, fm, anns, page, px, py, w, h, tol), 0)
  }

  /**
   * `_draw_arrow` always draws the shaft; it adds a head, pointing at the end
   * point, only when the two end points differ.
   */
  function ArrowHeadTip(x1: int, y1: int, x2: int, y2: int): (tip: Option<(int, int)>)
    ensures tip.None? <==> x1 == x2 && y1 == y2
    ensures tip.Some? ==> tip.value == (x2, y2)
  {
    if x1 == x2 && y1 == y2 then None else Some((x2, y2))
  }

  /**
   * The head of an arrow annotation as the overlay paints it: the end points
   * are first truncated to whole pixels of a `w` by `h` page image.
   */
  function ScreenArrowHead(a: Annotation, w: int, h: int): Option<(int, int)>
    requires HasEndPoint(a)
  {
    ArrowHeadTip(Trunc(a.x * w as real), Trunc(a.y * h as real), Trunc(a.x2.value * w as real), Trunc(a.y2.value * h as real))
  }
}

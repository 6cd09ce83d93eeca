/**
 * The viewer's drag controller: which handle of which annotation a press
 * grabs (`_find_drag_target`), and how each later pointer position reshapes
 * the grabbed annotation (`_apply_drag`).  Coordinates are page fractions;
 * `w`, `h` are the rendered page size in pixels.
 */
module Drag {
  import opened Wrappers
  import opened Numeric
  import opened Geometry
  import opened Models
  import opened Overlay
  import Search

  /** Pixel tolerance for grabbing a handle. */
  const DragTolerance: real := 20.0

  datatype DragKind =
    | PointDrag | LineStart | LineEnd | LineMove | CircleEdge | CircleMove | TextResize
    | RectcrossMove | RectcrossTL | RectcrossTR | RectcrossBL | RectcrossBR

  /**
   * `_DragState`: the grabbed handle, the annotation's index, the pointer
   * position at the press and the annotation's geometry at that moment.
   * Fields the handle does not use hold 0, as the source's defaults do.
   */
  datatype DragState = DragState(
    kind: DragKind,
    index: int,
    startFx: real,
    startFy: real,
    origX: real,
    origY: real,
    origX2: real,
    origY2: real,
    origWidth: real)

  predicate InUnit(v: real) {
    0.0 <= v <= 1.0
  }

  /** Handles whose drag writes `x` as `origX + dx`. */
  predicate WritesX(k: DragKind) {
    k in {PointDrag, LineStart, LineMove, CircleMove, RectcrossMove, RectcrossTL, RectcrossBL}
  }

  predicate WritesY(k: DragKind) {
    k in {PointDrag, LineStart, LineMove, CircleMove, RectcrossMove, RectcrossTL, RectcrossTR}
  }

  predicate WritesX2(k: DragKind) {
    k in {LineEnd, LineMove, CircleMove, RectcrossMove, RectcrossTR, RectcrossBR}
  }

  predicate WritesY2(k: DragKind) {
    k in {LineEnd, LineMove, CircleMove, RectcrossMove, RectcrossBL, RectcrossBR}
  }

  /**
   * One step of `_apply_drag` on the grabbed annotation, for the pointer at
   * (`fx`, `fy`).  `sq` is the square root behind `math.hypot`; the page
   * height `ph` divides the circle radius, so a circle-edge drag needs a page
   * of positive height.
   */
  function DragTo(sq: real -> real, a: Annotation, d: DragState, fx: real, fy: real, pw: int, ph: int): (r: Annotation)
    requires d.kind == CircleEdge ==> ph > 0
    ensures r.page == a.page && r.kind == a.kind && r.text == a.text
    ensures d.kind != TextResize ==> r.width == a.width
  {
    var dx := fx - d.startFx;
    var dy := fy - d.startFy;
    match d.kind
    case PointDrag => a.(x := Clamp01(d.origX + dx), y := Clamp01(d.origY + dy))
    case LineStart => a.(x := Clamp01(d.origX + dx), y := Clamp01(d.origY + dy))
    case LineEnd => a.(x2 := Some(Clamp01(d.origX2 + dx)), y2 := Some(Clamp01(d.origY2 + dy)))
    case LineMove => MoveBoth(a, d, dx, dy)
    case CircleEdge =>
      var radius := sq(DistSq(Px(fx - d.origX, pw), Px(fy - d.origY, ph)));
      a.(x2 := Some(d.origX), y2 := Some(Clamp01(d.origY + radius / ph as real)))
    case CircleMove => MoveBoth(a, d, dx, dy)
    case TextResize => a.(width := Some(Clamp(d.origWidth + dx, 0.02, 1.0)))
    case RectcrossMove => MoveBoth(a, d, dx, dy)
    case RectcrossTL => a.(x := Clamp01(d.origX + dx), y := Clamp01(d.origY + dy))
    case RectcrossTR => a.(x2 := Some(Clamp01(d.origX2 + dx)), y := Clamp01(d.origY + dy))
    case RectcrossBL => a.(x := Clamp01(d.origX + dx), y2 := Some(Clamp01(d.origY2 + dy)))
    case RectcrossBR => a.(x2 := Some(Clamp01(d.origX2 + dx)), y2 := Some(Clamp01(d.origY2 + dy)))
  }

  /** A drag writes only the coordinates of the grabbed handle; every other field keeps its value. */
  lemma DragFrame(sq: real -> real, a: Annotation, d: DragState, fx: real, fy: real, pw: int, ph: int)
    requires d.kind == CircleEdge ==> ph > 0
    ensures var r := DragTo(sq, a, d, fx, fy, pw, ph);
      (!WritesX(d.kind) ==> r.x == a.x)
      && (!WritesY(d.kind) ==> r.y == a.y)
      && (!WritesX2(d.kind) && d.kind != CircleEdge ==> r.x2 == a.x2)
      && (!WritesY2(d.kind) && d.kind != CircleEdge ==> r.y2 == a.y2)
  {
  }

  /**
   * Every start-point coordinate a drag writes stays on the page, and moves
   * exactly with the pointer while the unclamped value would stay on the page.
   */
  lemma DragStartPoint(sq: real -> real, a: Annotation, d: DragState, fx: real, fy: real, pw: int, ph: int)
    requires d.kind == CircleEdge ==> ph > 0
    ensures var r := DragTo(sq, a, d, fx, fy, pw, ph);
      (WritesX(d.kind) ==> InUnit(r.x) && (InUnit(d.origX + (fx - d.startFx)) ==> r.x - d.origX == fx - d.startFx))
      && (WritesY(d.kind) ==> InUnit(r.y) && (InUnit(d.origY + (fy - d.startFy)) ==> r.y - d.origY == fy - d.startFy))
  {
  }

  /** The same for the end point, which a drag always leaves present. */
  lemma DragEndPoint(sq: real -> real, a: Annotation, d: DragState, fx: real, fy: real, pw: int, ph: int)
    requires d.kind == CircleEdge ==> ph > 0
    ensures var r := DragTo(sq, a, d, fx, fy, pw, ph);
      (WritesX2(d.kind) ==>
        r.x2.Some? && InUnit(r.x2.value)
        && (InUnit(d.origX2 + (fx - d.startFx)) ==> r.x2.value - d.origX2 == fx - d.startFx))
      && (WritesY2(d.kind) ==>
        r.y2.Some? && InUnit(r.y2.value)
        && (InUnit(d.origY2 + (fy - d.startFy)) ==> r.y2.value - d.origY2 == fy - d.startFy))
      && (d.kind == CircleEdge ==> r.x2 == Some(d.origX) && r.y2.Some? && InUnit(r.y2.value))
  {
  }

  /** Resizing a text box keeps its width fraction in [0.02, 1] and follows the pointer inside that range. */
  lemma DragResize(sq: real -> real, a: Annotation, d: DragState, fx: real, fy: real, pw: int, ph: int)
    requires d.kind == TextResize
    ensures var r := DragTo(sq, a, d, fx, fy, pw, ph);
      r.width.Some? && 0.02 <= r.width.value <= 1.0
      && (0.02 <= d.origWidth + (fx - d.startFx) <= 1.0 ==> r.width.value - d.origWidth == fx - d.startFx)
      && r.x == a.x && r.y == a.y && r.x2 == a.x2 && r.y2 == a.y2
  {
  }

  /** The whole-shape move shared by lines, circles and rectcrosses. */
  function MoveBoth(a: Annotation, d: DragState, dx: real, dy: real): Annotation {
    a.(x := Clamp01(d.origX + dx), y := Clamp01(d.origY + dy),
       x2 := Some(Clamp01(d.origX2 + dx)), y2 := Some(Clamp01(d.origY2 + dy)))
  }

  /**
   * A drag places from the state it grabbed, not from the annotation's
   * current values: placing twice at the same pointer is placing once.
   */
  lemma DragToIdempotent(sq: real -> real, a: Annotation, d: DragState, fx: real, fy: real, pw: int, ph: int)
    requires d.kind == CircleEdge ==> ph > 0
    ensures DragTo(sq, DragTo(sq, a, d, fx, fy, pw, ph), d, fx, fy, pw, ph) == DragTo(sq, a, d, fx, fy, pw, ph)
  {
  }

  /** `_apply_drag`: reshape the grabbed annotation and leave every other one alone. */
  function ApplyDrag(sq: real -> real, anns: seq<Annotation>, d: DragState, fx: real, fy: real, pw: int, ph: int): (r: seq<Annotation>)
    requires 0 <= d.index < |anns|
    requires d.kind == CircleEdge ==> ph > 0
    ensures |r| == |anns|
    ensures forall j :: 0 <= j < |anns| && j != d.index ==> r[j] == anns[j]
    ensures r[d.index] == DragTo(sq, anns[d.index], d, fx, fy, pw, ph)
  {
    anns[d.index := DragTo(sq, anns[d.index], d, fx, fy, pw, ph)]
  }

  /** A circle moved as a whole keeps its edge point straight below its centre. */
  lemma CircleMoveKeepsHandleBelow(sq: real -> real, a: Annotation, d: DragState, fx: real, fy: real, pw: int, ph: int)
    requires d.kind == CircleMove && d.origX2 == d.origX
    ensures DragTo(sq, a, d, fx, fy, pw, ph).x2 == Some(DragTo(sq, a, d, fx, fy, pw, ph).x)
  {
  }

  /** A circle-edge drag keeps the edge point below a centre it does not move. */
  lemma CircleEdgeKeepsHandleBelow(sq: real -> real, a: Annotation, d: DragState, fx: real, fy: real, pw: int, ph: int)
    requires d.kind == CircleEdge && ph > 0 && a.x == d.origX
    ensures DragTo(sq, a, d, fx, fy, pw, ph).x2 == Some(DragTo(sq, a, d, fx, fy, pw, ph).x)
  {
  }

  /** A genuine square root of a square gives back the (non-negative) value. */
  lemma SqrtOfSquare(sq: real -> real, r: real)
    requires IsSqrt(sq) && r >= 0.0
    ensures sq(Sq(r)) == r
  {
    var s := sq(Sq(r));
    SqNonNeg(r);
    assert s * s == r * r;
    if s < r {
      MulStrict(s, r);
    } else if s > r {
      MulStrict(r, s);
    }
  }

  /** The radius of a circle in pixels, as the viewer measures it. */
  function CircleRadius(sq: real -> real, a: Annotation, w: int, h: int): real
    requires a.x2.Some? && a.y2.Some?
  {
    sq(DistSq(Px(a.x2.value - a.x, w), Px(a.y2.value - a.y, h)))
  }

  /**
   * Dragging the edge handle of a circle makes its radius the pointer's
   * distance from the centre (unless the edge point had to be clamped to the
   * bottom of the page), and the edge point never rises above the centre.
   */
  lemma CircleEdgeFollowsPointer(sq: real -> real, a: Annotation, d: DragState, fx: real, fy: real, pw: int, ph: int)
    requires IsSqrt(sq) && d.kind == CircleEdge && pw > 0 && ph > 0
    requires a.x == d.origX && a.y == d.origY && InUnit(d.origY)
    ensures var r := DragTo(sq, a, d, fx, fy, pw, ph);
      r.y2.Some? && d.origY <= r.y2.value
      && (d.origY + sq(DistSq(Px(fx - d.origX, pw), Px(fy - d.origY, ph))) / ph as real <= 1.0 ==>
            CircleRadius(sq, r, pw, ph) == sq(DistSq(Px(fx - d.origX, pw), Px(fy - d.origY, ph))))
  {
    var radius := sq(DistSq(Px(fx - d.origX, pw), Px(fy - d.origY, ph)));
    var r := DragTo(sq, a, d, fx, fy, pw, ph);
    var H := ph as real;
    assert radius >= 0.0;
    assert radius / H >= 0.0;
    if d.origY + radius / H <= 1.0 {
      assert r.y2.value == d.origY + radius / H;
      assert Px(r.y2.value - r.y, ph) == radius by {
        assert r.y2.value - r.y == radius / H;
        assert radius / H * H == radius;
      }
      assert Px(r.x2.value - r.x, pw) == 0.0;
      calc {
        DistSq(0.0, radius);
        Sq(0.0) + Sq(radius);
        Sq(radius);
      }
      SqrtOfSquare(sq, radius);
    }
  }

  /**
   * Dragging back to the press position restores a shape whose stored
   * geometry is what the press recorded: grabbing never makes a shape jump.
   */
  lemma DragAtPressIsIdentity(sq: real -> real, a: Annotation, d: DragState, pw: int, ph: int)
    requires d.kind != CircleEdge && d.kind != TextResize
    requires d.origX == a.x && d.origY == a.y && InUnit(a.x) && InUnit(a.y)
    requires WritesX2(d.kind) || WritesY2(d.kind) ==>
      a.x2 == Some(d.origX2) && a.y2 == Some(d.origY2) && InUnit(d.origX2) && InUnit(d.origY2)
    ensures DragTo(sq, a, d, d.startFx, d.startFy, pw, ph) == a
  {
  }

  /** Is annotation `a` a two-point shape whose end point the drag test reads? */
  predicate TwoPointKind(kind: string) {
    kind == "line" || kind == "arrow" || kind == "circle" || kind == "rectcross"
  }

  /**
   * The drag test reads `y2` whenever a two-point shape has an `x2`; the
   * application always stores the two together.
   */
  predicate EndPointsPaired(a: Annotation) {
    TwoPointKind(a.kind) && a.x2.Some? ==> a.y2.Some?
  }

  /** Which handle test `_find_drag_target` runs for an annotation. */
  datatype GrabShape = GrabSegment | GrabCircle | GrabRectcross | GrabText | GrabPoint

  function GrabShapeOf(a: Annotation): GrabShape {
    if IsSegmentKind(a.kind) && a.x2.Some? then GrabSegment
    else if a.kind == "circle" && a.x2.Some? then GrabCircle
    else if a.kind == "rectcross" && a.x2.Some? then GrabRectcross
    else if a.kind == "text" then GrabText
    else GrabPoint
  }

  function Grab(kind: DragKind, i: int, fx: real, fy: real, a: Annotation): DragState
    requires a.x2.Some? && a.y2.Some?
  {
    DragState(kind, i, fx, fy, a.x, a.y, a.x2.value, a.y2.value, 0.0)
  }

  /** Is the pointer (pixels) within the tolerance of the point (pixels)? */
  predicate Near(sq: real -> real, mx: real, my: real, px: real, py: real) {
    sq(DistSq(mx - px, my - py)) <= DragTolerance
  }

  /** The resize zone of a text box: a square below and right of its corner, reaching 4 px beyond it. */
  predicate InResizeZone(rect: Rect, hs: int, mx: real, my: real) {
    (rect.Right() - hs) as real <= mx <= (rect.Right() + 4) as real
    && (rect.Bottom() - hs) as real <= my <= (rect.Bottom() + 4) as real
  }

  /**
   * The handle of annotation `a` (at index `i`) under the pointer, trying
   * handles in the source's priority order, or `None`.
   */
  function TargetAt(sq: real -> real, fm: FontMetrics, a: Annotation, i: int, fx: real, fy: real, w: int, h: int): (r: Option<DragState>)
    requires w > 0 && EndPointsPaired(a)
    ensures r.Some? ==> r.value.index == i && r.value.startFx == fx && r.value.startFy == fy
    ensures r.Some? ==> r.value.origX == a.x && r.value.origY == a.y
    ensures r.Some? && r.value.kind != TextResize && r.value.kind != PointDrag ==>
      a.x2 == Some(r.value.origX2) && a.y2 == Some(r.value.origY2)
  {
    var mx := Px(fx, w);
    var my := Px(fy, h);
    match GrabShapeOf(a)
    case GrabSegment =>
      var x1 := Px(a.x, w);
      var y1 := Px(a.y, h);
      var x2 := Px(a.x2.value, w);
      var y2 := Px(a.y2.value, h);
      if Near(sq, mx, my, x1, y1) then Some(Grab(LineStart, i, fx, fy, a))
      else if Near(sq, mx, my, x2, y2) then Some(Grab(LineEnd, i, fx, fy, a))
      else if PtSegDist(sq, mx, my, x1, y1, x2, y2) <= DragTolerance then Some(Grab(LineMove, i, fx, fy, a))
      else None
    case GrabCircle =>
      var cx := Px(a.x, w);
      var cy := Px(a.y, h);
      var radius := CircleRadius(sq, a, w, h);
      if Near(sq, mx, my, cx, cy + radius) then Some(Grab(CircleEdge, i, fx, fy, a))
      else if -DragTolerance <= sq(DistSq(mx - cx, my - cy)) - radius <= DragTolerance then Some(Grab(CircleMove, i, fx, fy, a))
      else None
    case GrabRectcross =>
      var x1 := Px(a.x, w);
      var y1 := Px(a.y, h);
      var x2 := Px(a.x2.value, w);
      var y2 := Px(a.y2.value, h);
      if Near(sq, mx, my, x1, y1) then Some(Grab(RectcrossTL, i, fx, fy, a))
      else if Near(sq, mx, my, x2, y1) then Some(Grab(RectcrossTR, i, fx, fy, a))
      else if Near(sq, mx, my, x1, y2) then Some(Grab(RectcrossBL, i, fx, fy, a))
      else if Near(sq, mx, my, x2, y2) then Some(Grab(RectcrossBR, i, fx, fy, a))
      else if Min(PtSegDist(sq, mx, my, x1, y1, x2, y2), PtSegDist(sq, mx, my, x2, y1, x1, y2)) <= DragTolerance then
        Some(Grab(RectcrossMove, i, fx, fy, a))
      else None
    case GrabText =>
      var rect := TextBoxRect(fm, a, w, h);
      if rect.None? then None
      else
        var hs := Scaled(ResizeHandle, 4, h);
        if InResizeZone(rect.value, hs, mx, my) then
          var ow := if a.width.Some? then a.width.value else rect.value.width as real / w as real;
          Some(DragState(TextResize, i, fx, fy, a.x, a.y, 0.0, 0.0, ow))
        else if rect.value.Contains(Trunc(mx), Trunc(my)) then
          Some(DragState(PointDrag, i, fx, fy, a.x, a.y, 0.0, 0.0, 0.0))
        else None
    case GrabPoint =>
      if sq(DistSq(Px(a.x - fx, w), Px(a.y - fy, h))) <= DragTolerance then
        Some(DragState(PointDrag, i, fx, fy, a.x, a.y, 0.0, 0.0, 0.0))
      else None
  }

  /** Squared form of `Near`, which holds for a genuine square root. */
  predicate NearSq(mx: real, my: real, px: real, py: real) {
    DistSq(mx - px, my - py) <= DragTolerance * DragTolerance
  }

  lemma NearIsNearSq(sq: real -> real, mx: real, my: real, px: real, py: real)
    requires IsSqrt(sq)
    ensures Near(sq, mx, my, px, py) <==> NearSq(mx, my, px, py)
  {
    SqrtLeIff(sq, DistSq(mx - px, my - py), DragTolerance);
  }

  /**
   * Handle priority on a line or arrow: the start point beats the end point,
   * and both beat the shaft.  Stated with squared pixel distances.
   */
  lemma SegmentPriority(sq: real -> real, fm: FontMetrics, a: Annotation, i: int, fx: real, fy: real, w: int, h: int)
    requires IsSqrt(sq) && w > 0 && EndPointsPaired(a) && GrabShapeOf(a) == GrabSegment
    ensures var r := TargetAt(sq, fm, a, i, fx, fy, w, h);
      var mx := Px(fx, w);
      var my := Px(fy, h);
      var nearStart := NearSq(mx, my, Px(a.x, w), Px(a.y, h));
      var nearEnd := NearSq(mx, my, Px(a.x2.value, w), Px(a.y2.value, h));
      var onShaft := PtSegDistSq(mx, my, Px(a.x, w), Px(a.y, h), Px(a.x2.value, w), Px(a.y2.value, h))
                     <= DragTolerance * DragTolerance;
      (nearStart ==> r.Some? && r.value.kind == LineStart)
      && (!nearStart && nearEnd ==> r.Some? && r.value.kind == LineEnd)
      && (!nearStart && !nearEnd && onShaft ==> r.Some? && r.value.kind == LineMove)
      && (r.None? <==> !nearStart && !nearEnd && !onShaft)
  {
    var mx := Px(fx, w);
    var my := Px(fy, h);
    NearIsNearSq(sq, mx, my, Px(a.x, w), Px(a.y, h));
    NearIsNearSq(sq, mx, my, Px(a.x2.value, w), Px(a.y2.value, h));
    SqrtLeIff(sq, PtSegDistSq(mx, my, Px(a.x, w), Px(a.y, h), Px(a.x2.value, w), Px(a.y2.value, h)), DragTolerance);
  }

  /**
   * Handle priority on a rectcross: the four corners, in the order top-left,
   * top-right, bottom-left, bottom-right, beat either diagonal.
   */
  lemma RectcrossPriority(sq: real -> real, fm: FontMetrics, a: Annotation, i: int, fx: real, fy: real, w: int, h: int)
    requires IsSqrt(sq) && w > 0 && EndPointsPaired(a) && GrabShapeOf(a) == GrabRectcross
    ensures var r := TargetAt(sq, fm, a, i, fx, fy, w, h);
      var mx := Px(fx, w);
      var my := Px(fy, h);
      var x1 := Px(a.x, w);
      var y1 := Px(a.y, h);
      var x2 := Px(a.x2.value, w);
      var y2 := Px(a.y2.value, h);
      var tl := NearSq(mx, my, x1, y1);
      var tr := NearSq(mx, my, x2, y1);
      var bl := NearSq(mx, my, x1, y2);
      var br := NearSq(mx, my, x2, y2);
      (tl ==> r == Some(Grab(RectcrossTL, i, fx, fy, a)))
      && (!tl && tr ==> r == Some(Grab(RectcrossTR, i, fx, fy, a)))
      && (!tl && !tr && bl ==> r == Some(Grab(RectcrossBL, i, fx, fy, a)))
      && (!tl && !tr && !bl && br ==> r == Some(Grab(RectcrossBR, i, fx, fy, a)))
      && (r.Some? && r.value.kind == RectcrossMove ==> !tl && !tr && !bl && !br)
  {
    var mx := Px(fx, w);
    var my := Px(fy, h);
    NearIsNearSq(sq, mx, my, Px(a.x, w), Px(a.y, h));
    NearIsNearSq(sq, mx, my, Px(a.x2.value, w), Px(a.y, h));
    NearIsNearSq(sq, mx, my, Px(a.x, w), Px(a.y2.value, h));
    NearIsNearSq(sq, mx, my, Px(a.x2.value, w), Px(a.y2.value, h));
  }

  /**
   * Handle priority on a circle: the handle straight below the centre beats
   * the rim; a circle grabbed by either handle keeps its recorded edge point.
   */
  lemma CirclePriority(sq: real -> real, fm: FontMetrics, a: Annotation, i: int, fx: real, fy: real, w: int, h: int)
    requires IsSqrt(sq) && w > 0 && EndPointsPaired(a) && GrabShapeOf(a) == GrabCircle
    ensures var r := TargetAt(sq, fm, a, i, fx, fy, w, h);
      var handle := NearSq(Px(fx, w), Px(fy, h), Px(a.x, w), Px(a.y, h) + CircleRadius(sq, a, w, h));
      (handle ==> r == Some(Grab(CircleEdge, i, fx, fy, a)))
      && (r.Some? && r.value.kind == CircleMove ==> !handle)
      && (r.Some? ==> r.value.kind in {CircleEdge, CircleMove})
  {
    NearIsNearSq(sq, Px(fx, w), Px(fy, h), Px(a.x, w), Px(a.y, h) + CircleRadius(sq, a, w, h));
  }

  /**
   * Handle priority on a text box: the resize zone beats the box body, and a
   * resize grab records the box's current width fraction.
   */
  lemma TextPriority(sq: real -> real, fm: FontMetrics, a: Annotation, i: int, fx: real, fy: real, w: int, h: int)
    requires w > 0 && EndPointsPaired(a) && GrabShapeOf(a) == GrabText
    ensures var r := TargetAt(sq, fm, a, i, fx, fy, w, h);
      var rect := TextBoxRect(fm, a, w, h);
      (rect.None? ==> r.None?)
      && (rect.Some? && InResizeZone(rect.value, Scaled(ResizeHandle, 4, h), Px(fx, w), Px(fy, h)) ==>
            r.Some? && r.value.kind == TextResize
            && r.value.origWidth == (if a.width.Some? then a.width.value else rect.value.width as real / w as real))
      && (r.Some? && r.value.kind == PointDrag ==>
            rect.Some? && !InResizeZone(rect.value, Scaled(ResizeHandle, 4, h), Px(fx, w), Px(fy, h)))
  {
  }

  /** Every annotation on the page meets the drag test's pairing assumption. */
  predicate PagePaired(anns: seq<Annotation>, page: int) {
    forall j :: 0 <= j < |anns| && anns[j].page == page ==> EndPointsPaired(anns[j])
  }

  /** What a press would grab on each annotation: a handle on the page's annotations, nothing elsewhere. */
  function Targets(sq: real -> real, fm: FontMetrics, anns: seq<Annotation>, page: int,
                   fx: real, fy: real, w: int, h: int): (ts: seq<Option<DragState>>)
    requires w > 0 && PagePaired(anns, page)
    ensures |ts| == |anns|
    ensures forall j :: 0 <= j < |anns| ==>
      ts[j] == if anns[j].page == page then TargetAt(sq, fm, anns[j], j, fx, fy, w, h) else None
  {
    seq(|anns|, j requires 0 <= j < |anns| =>
      if anns[j].page == page then TargetAt(sq, fm, anns[j], j, fx, fy, w, h) else None)
  }

  /**
   * `_find_drag_target`: the topmost (highest-index) annotation on the page
   * with a handle under the pointer, and that handle; `None` when nothing is
   * grabbed or no page is shown (`size` absent).
   */
  function FindDragTarget(sq: real -> real, fm: FontMetrics, anns: seq<Annotation>, page: int,
                          fx: real, fy: real, size: Option<(int, int)>): (r: Option<DragState>)
    requires size.Some? ==> size.value.0 > 0
    requires PagePaired(anns, page)
    ensures size.None? ==> r.None?
    ensures r.Some? ==>
      size.Some? && 0 <= r.value.index < |anns| && anns[r.value.index].page == page
      && TargetAt(sq, fm, anns[r.value.index], r.value.index, fx, fy, size.value.0, size.value.1) == r
    ensures r.Some? ==> forall j :: r.value.index < j < |anns| && anns[j].page == page ==>
      TargetAt(sq, fm, anns[j], j, fx, fy, size.value.0, size.value.1).None?
    ensures size.Some? ==> (r.None? <==> forall j :: 0 <= j < |anns| && anns[j].page == page ==>
      TargetAt(sq, fm, anns[j], j, fx, fy, size.value.0, size.value.1).None?)
  {
    if size.None? then None
    else
      var ts := Targets(sq, fm, anns, page, fx, fy, size.value.0, size.value.1);
      var k := Search.LastBelow(ts, |ts|);
      if k < 0 then None else ts[k]
  }

  /** The text-tool hit test: a text annotation whose box contains the pointer pixel. */
  predicate TextHit(fm: FontMetrics, a: Annotation, fx: real, fy: real, w: int, h: int) {
    a.kind == "text"
    && var rect := TextBoxRect(fm, a, w, h);
    rect.Some? && rect.value.Contains(Trunc(Px(fx, w)), Trunc(Px(fy, h)))
  }

  /** Which annotations the text tool would hit: text boxes on the page under the pointer. */
  function TextHits(fm: FontMetrics, anns: seq<Annotation>, page: int, fx: real, fy: real, w: int, h: int): (bs: seq<bool>)
    ensures |bs| == |anns|
    ensures forall j :: 0 <= j < |anns| ==> bs[j] == (anns[j].page == page && TextHit(fm, anns[j], fx, fy, w, h))
  {
    seq(|anns|, j requires 0 <= j < |anns| => anns[j].page == page && TextHit(fm, anns[j], fx, fy, w, h))
  }

  /** `_find_text_at`: the lowest-index text box on the page under the pointer, or -1. */
  function FindTextAt(fm: FontMetrics, anns: seq<Annotation>, page: int, fx: real, fy: real, w: int, h: int): (r: int)
    ensures -1 <= r < |anns|
    ensures r >= 0 ==> anns[r].page == page && TextHit(fm, anns[r], fx, fy, w, h)
    ensures r >= 0 ==> forall j :: 0 <= j < r && anns[j].page == page ==> !TextHit(fm, anns[j], fx, fy, w, h)
    ensures r == -1 <==> forall j :: 0 <= j < |anns| && anns[j].page == page ==> !TextHit(fm, anns[j], fx, fy, w, h)
  {
    Search.FirstFrom(TextHits(fm, anns, page, fx, fy, w, h), 0)
  }

  /** On a text box the text tool and the eraser agree about what is under the pointer. */
  lemma TextHitIsEraserHit(sq: real -> real, fm: FontMetrics, a: Annotation, fx: real, fy: real, w: int, h: int)
    requires HasTextBox(a)
    ensures TextHit(fm, a, fx, fy, w, h) <==> EraserHit(sq, fm, a, fx, fy, w, h, EraserTolerance)
  {
  }
}

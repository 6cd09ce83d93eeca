/**
 * The PDF viewer panel's interaction state machine: the active tool, the
 * pending first click of a two-click shape, the current drag, panning, the
 * inline text editor, and page navigation.  Every handler is a pure step
 * from one state to the next; `changed` says whether the step emits
 * `annotations_changed`.
 */
module Viewer {
  import opened Wrappers
  import opened Numeric
  import opened Geometry
  import opened Models
  import opened Overlay
  import opened Drag
  import Text

  /** The toolbar tools; `NoTool` is the source's `TOOL_NONE`. */
  datatype Tool = NoTool | Checkmark | Cross | TextTool | Line | Arrow | Circle | Tilde | Eraser | Stamp | Rectcross {
    /** The annotation type a tool places (and its toolbar name). */
    function Kind(): string
      requires this != NoTool
    {
      match this
      case Checkmark => "checkmark"
      case Cross => "cross"
      case TextTool => "text"
      case Line => "line"
      case Arrow => "arrow"
      case Circle => "circle"
      case Tilde => "tilde"
      case Eraser => "eraser"
      case Stamp => "stamp"
      case Rectcross => "rectcross"
    }

    /** Line, arrow, circle and rectcross are placed with two clicks. */
    predicate TwoClick() {
      this in {Line, Arrow, Circle, Rectcross}
    }

    /** Checkmark, cross and tilde are placed with one click. */
    predicate PointTool() {
      this in {Checkmark, Cross, Tilde}
    }
  }

  /** Distinct tools place distinct annotation types. */
  lemma KindInjective(t: Tool, u: Tool)
    requires t != NoTool && u != NoTool && t.Kind() == u.Kind()
    ensures t == u
  {
  }

  /** The single-key tool shortcuts. */
  function KeyTool(key: char): (r: Option<Tool>)
    ensures r.Some? ==> r.value != NoTool
  {
    match key
    case 'V' => Some(Checkmark)
    case 'X' => Some(Cross)
    case 'T' => Some(TextTool)
    case 'L' => Some(Line)
    case 'A' => Some(Arrow)
    case 'O' => Some(Circle)
    case 'N' => Some(Tilde)
    case 'E' => Some(Eraser)
    case 'S' => Some(Stamp)
    case 'R' => Some(Rectcross)
    case _ => None
  }

  /** Every tool has exactly one shortcut key. */
  lemma KeyForEveryTool(t: Tool)
    requires t != NoTool
    ensures exists key :: KeyTool(key) == Some(t)
    ensures forall k1, k2 :: KeyTool(k1) == Some(t) && KeyTool(k2) == Some(t) ==> k1 == k2
  {
    var key := match t
      case Checkmark => 'V' case Cross => 'X' case TextTool => 'T' case Line => 'L' case Arrow => 'A'
      case Circle => 'O' case Tilde => 'N' case Eraser => 'E' case Stamp => 'S' case Rectcross => 'R';
    assert KeyTool(key) == Some(t);
  }

  /** The open inline text editor: where it edits, which annotation (or -1 for a new one), the page width it saw. */
  datatype Editor = Editor(fx: real, fy: real, editIndex: int, pageWidth: int)

  datatype ViewerState = ViewerState(
    anns: seq<Annotation>,
    page: int,
    /** Pages of the open document; 0 when none is open. */
    pageCount: int,
    /** Logical size of the rendered page, absent while no page is shown. */
    pixmap: Option<(int, int)>,
    tool: Tool,
    lineStart: Option<(real, real)>,
    drag: Option<DragState>,
    dragMoved: bool,
    panning: bool,
    editor: Option<Editor>)

  /** One handler's effect: the next state, and whether `annotations_changed` is emitted. */
  datatype Outcome = Outcome(s: ViewerState, changed: bool)

  /** A grabbed top-right rectcross corner writes only `x2`, so the annotation must already have a `y2`. */
  predicate DragFits(d: DragState, a: Annotation) {
    d.kind == RectcrossTR ==> a.y2.Some?
  }

  predicate AllPaired(anns: seq<Annotation>) {
    forall j :: 0 <= j < |anns| ==> EndPointsPaired(anns[j])
  }

  /** What the viewer keeps true between events. */
  predicate Valid(s: ViewerState) {
    (s.pixmap.Some? ==> s.pixmap.value.0 > 0 && s.pixmap.value.1 > 0)
    && s.pageCount >= 0
    && (s.pageCount > 0 ==> 0 <= s.page < s.pageCount)
    && AllPaired(s.anns)
    && (s.drag.Some? ==> 0 <= s.drag.value.index < |s.anns| && DragFits(s.drag.value, s.anns[s.drag.value.index]))
  }

  /** `_page_size`: the rendered page's logical size, or 1 x 1 without a page. */
  function PageSize(s: ViewerState): (r: (int, int))
    requires Valid(s)
    ensures r.0 > 0 && r.1 > 0
  {
    if s.pixmap.Some? then s.pixmap.value else (1, 1)
  }

  /** `set_active_tool`: changing tool abandons a pending first click. */
  function SetActiveTool(s: ViewerState, t: Tool): (r: ViewerState)
    ensures r.tool == t
    ensures t != s.tool ==> r.lineStart.None?
    ensures t == s.tool ==> r == s
    ensures r.anns == s.anns && r.page == s.page && r.drag == s.drag && r.editor == s.editor
    ensures Valid(s) ==> Valid(r)
  {
    if t != s.tool then s.(lineStart := None, tool := t) else s
  }

  /** A toolbar shortcut: the key's tool, or no tool when it is already active. */
  function ToggleTool(s: ViewerState, key: char): (r: ViewerState)
    ensures KeyTool(key).None? ==> r == s
    ensures KeyTool(key).Some? && s.tool == KeyTool(key).value ==> r.tool == NoTool && r.lineStart.None?
    ensures KeyTool(key).Some? && s.tool != KeyTool(key).value ==> r.tool == KeyTool(key).value && r.lineStart.None?
    ensures r.anns == s.anns
  {
    match KeyTool(key)
    case None => s
    case Some(t) => SetActiveTool(s, if s.tool == t then NoTool else t)
  }

  /** Pressing a shortcut twice from no tool (or from its own tool) returns to where it started. */
  lemma ToggleTwice(s: ViewerState, key: char)
    requires KeyTool(key).Some? && (s.tool == NoTool || s.tool == KeyTool(key).value)
    ensures ToggleTool(ToggleTool(s, key), key).tool == s.tool
  {
  }

  /** Escape first abandons a pending first click; with none pending it deselects the tool. */
  function Escape(s: ViewerState): (r: ViewerState)
    ensures r.anns == s.anns && r.lineStart.None?
    ensures s.lineStart.Some? ==> r.tool == s.tool
    ensures s.lineStart.None? ==> r.tool == NoTool
  {
    if s.lineStart.Some? then s.(lineStart := None) else SetActiveTool(s, NoTool)
  }

  /** `_reset_interaction`: drop the pending click, the drag and the inline editor. */
  function ResetInteraction(s: ViewerState): (r: ViewerState)
    ensures r.lineStart.None? && r.drag.None? && r.editor.None?
    ensures r.anns == s.anns && r.tool == s.tool && r.page == s.page
  {
    s.(lineStart := None, drag := None, editor := None)
  }

  function PrevPage(s: ViewerState): (r: ViewerState)
    ensures s.pageCount > 0 && s.page > 0 ==> r.page == s.page - 1 && r.drag.None? && r.lineStart.None?
    ensures !(s.pageCount > 0 && s.page > 0) ==> r == s
    ensures r.anns == s.anns && r.pageCount == s.pageCount
  {
    if s.pageCount > 0 && s.page > 0 then ResetInteraction(s).(page := s.page - 1) else s
  }

  function NextPage(s: ViewerState): (r: ViewerState)
    ensures s.pageCount > 0 && s.page < s.pageCount - 1 ==> r.page == s.page + 1 && r.drag.None? && r.lineStart.None?
    ensures !(s.pageCount > 0 && s.page < s.pageCount - 1) ==> r == s
    ensures r.anns == s.anns && r.pageCount == s.pageCount
  {
    if s.pageCount > 0 && s.page < s.pageCount - 1 then ResetInteraction(s).(page := s.page + 1) else s
  }

  /** Page navigation never leaves the document. */
  lemma PageNavigationValid(s: ViewerState)
    requires Valid(s)
    ensures Valid(PrevPage(s)) && Valid(NextPage(s))
  {
  }

  /** `_start_text_edit`: close any open editor, then open one if a page is shown. */
  function StartTextEdit(s: ViewerState, fx: real, fy: real, editIndex: int): (r: ViewerState)
    requires Valid(s)
    ensures s.pixmap.None? ==> r.editor.None?
    ensures s.pixmap.Some? ==> r.editor == Some(Editor(fx, fy, editIndex, s.pixmap.value.0))
    ensures r.anns == s.anns && r.tool == s.tool
    ensures Valid(r)
  {
    if s.pixmap.None? then s.(editor := None)
    else s.(editor := Some(Editor(fx, fy, editIndex, s.pixmap.value.0)))
  }

  /** The annotation the second click of a two-click tool places. */
  function PlacedShape(sq: real -> real, s: ViewerState, x1: real, y1: real, fx: real, fy: real): (a: Annotation)
    requires Valid(s) && s.tool.TwoClick()
    ensures a.page == s.page && a.kind == s.tool.Kind() && a.x == x1 && a.y == y1
    ensures a.x2.Some? && a.y2.Some? && a.text.None? && a.width.None?
    ensures s.tool == Circle ==> a.x2 == Some(x1)
    ensures s.tool != Circle ==> a.x2 == Some(fx) && a.y2 == Some(fy)
  {
    var (pw, ph) := PageSize(s);
    if s.tool == Circle then
      var radius := sq(DistSq(Px(fx - x1, pw), Px(fy - y1, ph)));
      Annotation(s.page, s.tool.Kind(), x1, y1, None, Some(x1), Some(y1 + radius / ph as real), None)
    else
      Annotation(s.page, s.tool.Kind(), x1, y1, None, Some(fx), Some(fy), None)
  }

  /** `_handle_click`: what a click with the active tool does. */
  function HandleClick(sq: real -> real, fm: FontMetrics, s: ViewerState, fx: real, fy: real): (o: Outcome)
    requires Valid(s)
    ensures o.s.page == s.page && o.s.pageCount == s.pageCount && o.s.drag == s.drag
    ensures o.s.dragMoved == s.dragMoved && o.s.panning == s.panning
  {
    var (w, h) := PageSize(s);
    match s.tool
    case NoTool => Outcome(s, false)
    case Eraser =>
      var idx := FindAnnotationAt(sq, fm, s.anns, s.page, fx, fy, w, h, EraserTolerance);
      if idx >= 0 then
        Outcome(SetActiveTool(s.(anns := s.anns[..idx] + s.anns[idx + 1..]), NoTool), true)
      else Outcome(s, false)
    case TextTool =>
      var idx := FindTextAt(fm, s.anns, s.page, fx, fy, w, h);
      if idx >= 0 then Outcome(StartTextEdit(s, s.anns[idx].x, s.anns[idx].y, idx), false)
      else Outcome(StartTextEdit(s, fx, fy, -1), false)
    case Stamp => Outcome(s, false)
    case Line | Arrow | Circle | Rectcross =>
      if s.lineStart.None? then Outcome(s.(lineStart := Some((fx, fy))), false)
      else
        var a := PlacedShape(sq, s, s.lineStart.value.0, s.lineStart.value.1, fx, fy);
        Outcome(SetActiveTool(s.(lineStart := None, anns := s.anns + [a]), NoTool), true)
    case Checkmark | Cross | Tilde =>
      var a := Annotation(s.page, s.tool.Kind(), fx, fy, None, None, None, None);
      Outcome(SetActiveTool(s.(anns := s.anns + [a]), NoTool), true)
  }

  /**
   * Two-click placement: the first click only records the start point; the
   * second appends exactly one shape of the tool's type starting there,
   * clears the pending start, deselects the tool and emits once.
   */
  lemma TwoClickPlacement(sq: real -> real, fm: FontMetrics, s: ViewerState, fx: real, fy: real)
    requires Valid(s) && s.tool.TwoClick()
    ensures var o := HandleClick(sq, fm, s, fx, fy);
      (s.lineStart.None? ==>
        o.s.anns == s.anns && o.s.lineStart == Some((fx, fy)) && o.s.tool == s.tool && !o.changed)
      && (s.lineStart.Some? ==>
        |o.s.anns| == |s.anns| + 1 && o.s.anns[..|s.anns|] == s.anns
        && o.s.anns[|s.anns|].kind == s.tool.Kind() && o.s.anns[|s.anns|].page == s.page
        && (o.s.anns[|s.anns|].x, o.s.anns[|s.anns|].y) == s.lineStart.value
        && (s.tool == Circle ==> o.s.anns[|s.anns|].x2 == Some(o.s.anns[|s.anns|].x))
        && o.s.lineStart.None? && o.s.tool == NoTool && o.changed)
  {
    if s.lineStart.Some? {
      var a := PlacedShape(sq, s, s.lineStart.value.0, s.lineStart.value.1, fx, fy);
      assert (s.anns + [a])[..|s.anns|] == s.anns;
    }
  }

  /** A point tool appends one marker at the click, deselects itself and emits once. */
  lemma PointPlacement(sq: real -> real, fm: FontMetrics, s: ViewerState, fx: real, fy: real)
    requires Valid(s) && s.tool.PointTool()
    ensures var o := HandleClick(sq, fm, s, fx, fy);
      o.s.anns == s.anns + [Annotation(s.page, s.tool.Kind(), fx, fy, None, None, None, None)]
      && o.s.tool == NoTool && o.changed
  {
  }

  /**
   * The eraser removes exactly the lowest-index annotation under the pointer
   * on the current page and deselects itself; with nothing there it changes nothing.
   */
  lemma EraserRemovesOne(sq: real -> real, fm: FontMetrics, s: ViewerState, fx: real, fy: real)
    requires Valid(s) && s.tool == Eraser
    ensures var o := HandleClick(sq, fm, s, fx, fy);
      var (w, h) := PageSize(s);
      var idx := FindAnnotationAt(sq, fm, s.anns, s.page, fx, fy, w, h, EraserTolerance);
      (idx >= 0 ==>
         |o.s.anns| == |s.anns| - 1
         && (forall j :: 0 <= j < idx ==> o.s.anns[j] == s.anns[j])
         && (forall j :: idx <= j < |o.s.anns| ==> o.s.anns[j] == s.anns[j + 1])
         && o.s.tool == NoTool && o.changed)
      && (idx < 0 ==> o == Outcome(s, false))
  {
  }

  /** No click ever changes annotations while no tool is active. */
  lemma NoToolClickInert(sq: real -> real, fm: FontMetrics, s: ViewerState, fx: real, fy: real)
    requires Valid(s) && s.tool == NoTool
    ensures HandleClick(sq, fm, s, fx, fy) == Outcome(s, false)
  {
  }

  /** Escape or a tool change abandons a pending first click without placing anything. */
  lemma CancelPending(s: ViewerState, t: Tool)
    requires s.lineStart.Some? && t != s.tool
    ensures Escape(s).lineStart.None? && Escape(s).anns == s.anns
    ensures SetActiveTool(s, t).lineStart.None? && SetActiveTool(s, t).anns == s.anns
  {
  }

  /**
   * `_on_page_pressed`: a pan press only starts panning; with no tool a
   * press on a handle starts a drag; anything else is a click.  Every press
   * forgets whether the previous drag moved.  A press follows the previous
   * release, so no drag is in progress.
   */
  function Press(sq: real -> real, fm: FontMetrics, s: ViewerState, fx: real, fy: real, panModifier: bool): (o: Outcome)
    requires Valid(s) && s.drag.None?
    ensures !o.s.dragMoved
    ensures panModifier ==> o == Outcome(s.(dragMoved := false, panning := true), false)
    ensures o.s.drag.Some? ==> !panModifier && s.tool == NoTool && o.s.anns == s.anns && !o.changed
    ensures !panModifier && s.tool == NoTool && FindDragTarget(sq, fm, s.anns, s.page, fx, fy, s.pixmap).Some? ==>
      o == Outcome(s.(dragMoved := false, drag := FindDragTarget(sq, fm, s.anns, s.page, fx, fy, s.pixmap)), false)
    ensures !panModifier && (s.tool != NoTool || FindDragTarget(sq, fm, s.anns, s.page, fx, fy, s.pixmap).None?) ==>
      o == HandleClick(sq, fm, s.(dragMoved := false), fx, fy)
  {
    var s0 := s.(dragMoved := false);
    assert Valid(s0);
    if panModifier then Outcome(s0.(panning := true), false)
    else
      var target := if s.tool == NoTool then FindDragTarget(sq, fm, s.anns, s.page, fx, fy, s.pixmap) else None;
      if target.Some? then Outcome(s0.(drag := target), false)
      else HandleClick(sq, fm, s0, fx, fy)
  }

  /** `_on_page_moved`: a drag in progress follows the pointer and is marked as moved. */
  function Move(sq: real -> real, s: ViewerState, fx: real, fy: real): (o: Outcome)
    requires Valid(s)
    ensures !o.changed
    ensures o.s.drag == s.drag && o.s.tool == s.tool && o.s.lineStart == s.lineStart
    ensures |o.s.anns| == |s.anns|
    ensures !s.panning && s.drag.Some? ==> o.s.dragMoved
    ensures !s.panning && s.drag.Some? ==>
      o.s.anns == ApplyDrag(sq, s.anns, s.drag.value, fx, fy, PageSize(s).0, PageSize(s).1)
    ensures s.panning || s.drag.None? ==> o.s == s
  {
    if s.panning then Outcome(s, false)
    else if s.drag.Some? then
      var (pw, ph) := PageSize(s);
      Outcome(s.(dragMoved := true, anns := ApplyDrag(sq, s.anns, s.drag.value, fx, fy, pw, ph)), false)
    else Outcome(s, false)
  }

  /**
   * `_on_page_released`: ends a pan, or applies the final position of a drag
   * and ends it, emitting `annotations_changed` exactly when the drag moved.
   */
  function Release(sq: real -> real, s: ViewerState, fx: real, fy: real): (o: Outcome)
    requires Valid(s)
    ensures s.panning ==> o == Outcome(s.(panning := false), false)
    ensures o.s.drag.None? || s.panning
    ensures o.changed <==> !s.panning && s.drag.Some? && s.dragMoved
    ensures |o.s.anns| == |s.anns|
    ensures !s.panning && s.drag.Some? ==>
      o.s.anns == ApplyDrag(sq, s.anns, s.drag.value, fx, fy, PageSize(s).0, PageSize(s).1)
    ensures !s.panning && s.drag.None? ==> o == Outcome(s, false)
  {
    if s.panning then Outcome(s.(panning := false), false)
    else if s.drag.Some? then
      var (pw, ph) := PageSize(s);
      Outcome(s.(drag := None, anns := ApplyDrag(sq, s.anns, s.drag.value, fx, fy, pw, ph)), s.dragMoved)
    else Outcome(s, false)
  }

  /** A press followed straight by a release (a click, no move) never reports a change from a drag. */
  lemma PressReleaseWithoutMove(sq: real -> real, fm: FontMetrics, s: ViewerState, fx: real, fy: real, gx: real, gy: real)
    requires Valid(s) && s.drag.None? && s.tool == NoTool
    requires Valid(Press(sq, fm, s, fx, fy, false).s)
    ensures !Press(sq, fm, s, fx, fy, false).changed
    ensures !Release(sq, Press(sq, fm, s, fx, fy, false).s, gx, gy).changed
  {
  }

  /** Press, any move, release: the drag emits exactly once and is over afterwards. */
  lemma PressMoveReleaseEmitsOnce(sq: real -> real, s: ViewerState, d: DragState, mx: real, my: real, rx: real, ry: real)
    requires Valid(s) && !s.panning && s.drag == Some(d)
    ensures var m := Move(sq, s, mx, my);
      !m.changed && Valid(m.s) && Release(sq, m.s, rx, ry).changed && Release(sq, m.s, rx, ry).s.drag.None?
  {
    MoveValid(sq, s, mx, my);
  }

  /**
   * A release where the last move left the pointer places the annotation
   * exactly where that move did: the release adds no further change.
   */
  lemma ReleaseRepeatsLastMove(sq: real -> real, s: ViewerState, fx: real, fy: real)
    requires Valid(s) && !s.panning && s.drag.Some?
    ensures var m := Move(sq, s, fx, fy);
      Valid(m.s) && Release(sq, m.s, fx, fy).s.anns == m.s.anns
  {
    MoveValid(sq, s, fx, fy);
    var d := s.drag.value;
    var (pw, ph) := PageSize(s);
    var m := Move(sq, s, fx, fy);
    assert PageSize(m.s) == (pw, ph);
    Drag.DragToIdempotent(sq, s.anns[d.index], d, fx, fy, pw, ph);
  }

  /** A drag step keeps every annotation's end points paired and the drag fitting its annotation. */
  lemma DragStepValid(sq: real -> real, anns: seq<Annotation>, d: DragState, fx: real, fy: real, pw: int, ph: int)
    requires AllPaired(anns) && 0 <= d.index < |anns| && DragFits(d, anns[d.index]) && pw > 0 && ph > 0
    ensures var r := ApplyDrag(sq, anns, d, fx, fy, pw, ph);
      AllPaired(r) && DragFits(d, r[d.index])
  {
    var a := anns[d.index];
    DragFrame(sq, a, d, fx, fy, pw, ph);
    DragEndPoint(sq, a, d, fx, fy, pw, ph);
    var r := ApplyDrag(sq, anns, d, fx, fy, pw, ph);
    forall j | 0 <= j < |r|
      ensures EndPointsPaired(r[j])
    {
      if j == d.index {
        assert EndPointsPaired(a);
      }
    }
  }

  lemma MoveValid(sq: real -> real, s: ViewerState, fx: real, fy: real)
    requires Valid(s)
    ensures Valid(Move(sq, s, fx, fy).s)
  {
    if !s.panning && s.drag.Some? {
      var (pw, ph) := PageSize(s);
      DragStepValid(sq, s.anns, s.drag.value, fx, fy, pw, ph);
    }
  }

  lemma ReleaseValid(sq: real -> real, s: ViewerState, fx: real, fy: real)
    requires Valid(s)
    ensures Valid(Release(sq, s, fx, fy).s)
  {
    if !s.panning && s.drag.Some? {
      var (pw, ph) := PageSize(s);
      DragStepValid(sq, s.anns, s.drag.value, fx, fy, pw, ph);
    }
  }

  lemma AppendPaired(anns: seq<Annotation>, a: Annotation)
    requires AllPaired(anns) && EndPointsPaired(a)
    ensures AllPaired(anns + [a])
  {
    forall j | 0 <= j < |anns + [a]|
      ensures EndPointsPaired((anns + [a])[j])
    {
      if j < |anns| {
        assert (anns + [a])[j] == anns[j];
      }
    }
  }

  lemma RemovePaired(anns: seq<Annotation>, idx: int)
    requires AllPaired(anns) && 0 <= idx < |anns|
    ensures AllPaired(anns[..idx] + anns[idx + 1..])
  {
    var rest := anns[..idx] + anns[idx + 1..];
    forall j | 0 <= j < |rest|
      ensures EndPointsPaired(rest[j])
    {
      if j < idx {
        assert rest[j] == anns[j];
      } else {
        assert rest[j] == anns[j + 1];
      }
    }
  }

  lemma HandleClickValid(sq: real -> real, fm: FontMetrics, s: ViewerState, fx: real, fy: real)
    requires Valid(s) && s.drag.None?
    ensures Valid(HandleClick(sq, fm, s, fx, fy).s)
  {
    match s.tool
    case Eraser => EraserClickValid(sq, fm, s, fx, fy);
    case Line | Arrow | Circle | Rectcross => ShapeClickValid(sq, fm, s, fx, fy);
    case Checkmark | Cross | Tilde => StampClickValid(sq, fm, s, fx, fy);
    case _ =>
  }

  lemma EraserClickValid(sq: real -> real, fm: FontMetrics, s: ViewerState, fx: real, fy: real)
    requires Valid(s) && s.drag.None? && s.tool == Eraser
    ensures Valid(HandleClick(sq, fm, s, fx, fy).s)
  {
    var (w, h) := PageSize(s);
    var idx := FindAnnotationAt(sq, fm, s.anns, s.page, fx, fy, w, h, EraserTolerance);
    if idx >= 0 {
      RemoveValid(s, idx);
    }
  }

  lemma RemoveValid(s: ViewerState, idx: int)
    requires Valid(s) && s.drag.None? && 0 <= idx < |s.anns|
    ensures Valid(SetActiveTool(s.(anns := s.anns[..idx] + s.anns[idx + 1..]), NoTool))
  {
    RemovePaired(s.anns, idx);
    assert Valid(s.(anns := s.anns[..idx] + s.anns[idx + 1..]));
  }

  lemma ShapeClickValid(sq: real -> real, fm: FontMetrics, s: ViewerState, fx: real, fy: real)
    requires Valid(s) && s.drag.None? && s.tool.TwoClick()
    ensures Valid(HandleClick(sq, fm, s, fx, fy).s)
  {
    if s.lineStart.Some? {
      var a := PlacedShape(sq, s, s.lineStart.value.0, s.lineStart.value.1, fx, fy);
      AppendPaired(s.anns, a);
      var s1 := s.(lineStart := None, anns := s.anns + [a]);
      assert Valid(s1);
      assert HandleClick(sq, fm, s, fx, fy).s == SetActiveTool(s1, NoTool);
    }
  }

  lemma StampClickValid(sq: real -> real, fm: FontMetrics, s: ViewerState, fx: real, fy: real)
    requires Valid(s) && s.drag.None? && (s.tool == Checkmark || s.tool == Cross || s.tool == Tilde)
    ensures Valid(HandleClick(sq, fm, s, fx, fy).s)
  {
    var a := Annotation(s.page, s.tool.Kind(), fx, fy, None, None, None, None);
    AppendPaired(s.anns, a);
    var s1 := s.(anns := s.anns + [a]);
    assert Valid(s1);
    assert HandleClick(sq, fm, s, fx, fy).s == SetActiveTool(s1, NoTool);
  }

  /** Every press keeps the viewer's invariant; a drag it starts fits its annotation. */
  lemma PressValid(sq: real -> real, fm: FontMetrics, s: ViewerState, fx: real, fy: real, panModifier: bool)
    requires Valid(s) && s.drag.None?
    ensures Valid(Press(sq, fm, s, fx, fy, panModifier).s)
  {
    var s0 := s.(dragMoved := false);
    if !panModifier {
      var t := FindDragTarget(sq, fm, s.anns, s.page, fx, fy, s.pixmap);
      if s.tool == NoTool && t.Some? {
        var d := t.value;
        var a := s.anns[d.index];
        assert d.kind == RectcrossTR ==> a.y2 == Some(d.origY2);
      } else {
        HandleClickValid(sq, fm, s0, fx, fy);
      }
    }
  }

  /**
   * `_commit` of the inline editor: non-blank text, stripped, replaces the
   * edited annotation's text and width or becomes a new text annotation at
   * the editor's position; blank text changes nothing.  Either way the
   * editor closes and the tool is deselected.  `None` when the edited index
   * no longer exists (an `IndexError`).
   */
  function CommitText(s: ViewerState, e: Editor, text: string, editorWidth: int): (r: Option<Outcome>)
    ensures r.None? <==> Text.Strip(text) != "" && e.editIndex >= |s.anns|
    ensures r.Some? ==> r.value.s.editor.None? && r.value.s.tool == NoTool
    ensures r.Some? ==> (r.value.changed <==> Text.Strip(text) != "")
    ensures r.Some? && Text.Strip(text) == "" ==> r.value.s.anns == s.anns
    ensures r.Some? && Text.Strip(text) != "" && e.editIndex < 0 ==>
      r.value.s.anns == s.anns + [Annotation(s.page, "text", e.fx, e.fy, Some(Text.Strip(text)), None, None,
                                             if e.pageWidth > 0 then Some(editorWidth as real / e.pageWidth as real) else None)]
    ensures r.Some? && Text.Strip(text) != "" && 0 <= e.editIndex ==>
      |r.value.s.anns| == |s.anns|
      && r.value.s.anns[e.editIndex].text == Some(Text.Strip(text))
      && r.value.s.anns[e.editIndex].x == s.anns[e.editIndex].x
      && r.value.s.anns[e.editIndex].y == s.anns[e.editIndex].y
      && forall j :: 0 <= j < |s.anns| && j != e.editIndex ==> r.value.s.anns[j] == s.anns[j]
    ensures r.Some? && Text.Strip(text) != "" && 0 <= e.editIndex ==>
      var a, b := s.anns[e.editIndex], r.value.s.anns[e.editIndex];
      b.width == (if e.pageWidth > 0 then Some(editorWidth as real / e.pageWidth as real) else None)
      && b.page == a.page && b.kind == a.kind && b.x2 == a.x2 && b.y2 == a.y2
  {
    var s0 := s.(editor := None);
    var stripped := Text.Strip(text);
    if stripped == "" then Some(Outcome(SetActiveTool(s0, NoTool), false))
    else
      var widthFrac := if e.pageWidth > 0 then Some(editorWidth as real / e.pageWidth as real) else None;
      if e.editIndex >= 0 then
        if e.editIndex >= |s.anns| then None
        else
          var a := s.anns[e.editIndex];
          var anns := s.anns[e.editIndex := a.(text := Some(stripped), width := widthFrac)];
          Some(Outcome(SetActiveTool(s0.(anns := anns), NoTool), true))
      else
        var a := Annotation(s.page, "text", e.fx, e.fy, Some(stripped), None, None, widthFrac);
        Some(Outcome(SetActiveTool(s0.(anns := s.anns + [a]), NoTool), true))
  }
  /**
   * The width fraction a commit stores brings the box back at the editor's
   * width: redrawn on the same page image, a text box is as wide as the
   * editor was (when that is at least the 20-pixel minimum).
   */
  lemma CommittedWidthRedraws(fm: FontMetrics, text: string, editorWidth: int, pageWidth: int, h: int)
    requires pageWidth > 0 && editorWidth >= 20
    ensures TextBoxSize(fm, text, Some(editorWidth as real / pageWidth as real), pageWidth, h).0 == editorWidth
  {
    assert editorWidth as real / pageWidth as real * pageWidth as real == editorWidth as real;
  }


  /** `_cancel`: the editor closes and nothing else changes. */
  function CancelText(s: ViewerState): (r: ViewerState)
    ensures r.editor.None? && r.anns == s.anns && r.tool == s.tool
  {
    s.(editor := None)
  }
}

/**
 * The viewer's small widgets: the page label's pixel-to-fraction mapping,
 * zoom clamping, the tool bar's flow layout and the inline text editor's
 * one-shot commit/cancel flag.
 */
module Widgets {
  import opened Numeric
  import Text

  /**
   * `ClickableLabel._frac`: a pointer position in label pixels as page
   * fractions, clamped to the page; (0, 0) for a label of no size.
   */
  function Frac(px: real, py: real, w: int, h: int): (r: (real, real))
    ensures 0.0 <= r.0 <= 1.0 && 0.0 <= r.1 <= 1.0
    ensures !(w > 0 && h > 0) ==> r == (0.0, 0.0)
  {
    if w > 0 && h > 0 then (Clamp01(px / w as real), Clamp01(py / h as real)) else (0.0, 0.0)
  }

  /** Inside the label, the fraction scaled back by the label size is the pixel position. */
  lemma FracInverse(px: real, py: real, w: int, h: int)
    requires w > 0 && h > 0 && 0.0 <= px <= w as real && 0.0 <= py <= h as real
    ensures Frac(px, py, w, h).0 * w as real == px && Frac(px, py, w, h).1 * h as real == py
  {
    ScaleBack(px, w as real);
    ScaleBack(py, h as real);
  }

  /** One axis of `FracInverse`. */
  lemma ScaleBack(p: real, size: real)
    requires size > 0.0 && 0.0 <= p <= size
    ensures Clamp01(p / size) * size == p
  {
    var q := p / size;
    assert q * size == p;
    assert 0.0 <= q by {
      DivNonNeg(p, size);
    }
    assert q <= 1.0 by {
      DivAtMostOne(p, size);
    }
  }

  lemma DivAtMostOne(a: real, c: real)
    requires a <= c && c > 0.0
    ensures a / c <= 1.0
  {
  }

  lemma DivNonNeg(a: real, b: real)
    requires a >= 0.0 && b > 0.0
    ensures a / b >= 0.0
  {
  }

  const MinZoom: real := 0.5
  const MaxZoom: real := 3.0
  /** Zoom changes smaller than this are ignored. */
  const ZoomEpsilon: real := 0.005

  /**
   * `_apply_zoom`: the requested zoom, clamped to [0.5, 3.0], replaces the
   * current one (and the page is re-rendered) only when it differs by more
   * than 0.005.
   */
  function ApplyZoom(zoom: real, requested: real): (r: (real, bool))
    ensures r.1 ==> r.0 == Clamp(requested, MinZoom, MaxZoom) && MinZoom <= r.0 <= MaxZoom
    ensures r.1 <==> Abs(Clamp(requested, MinZoom, MaxZoom) - zoom) > ZoomEpsilon
    ensures !r.1 ==> r.0 == zoom
  {
    var z := Clamp(requested, MinZoom, MaxZoom);
    if Abs(z - zoom) > ZoomEpsilon then (z, true) else (zoom, false)
  }

  function Abs(v: real): real {
    if v < 0.0 then -v else v
  }

  /** A zoom that starts in range stays in range. */
  lemma ZoomStaysInRange(zoom: real, requested: real)
    requires MinZoom <= zoom <= MaxZoom
    ensures MinZoom <= ApplyZoom(zoom, requested).0 <= MaxZoom
  {
  }

  /** Requesting the same zoom twice re-renders at most once. */
  lemma ZoomIdempotent(zoom: real, requested: real)
    ensures !ApplyZoom(ApplyZoom(zoom, requested).0, requested).1
    ensures ApplyZoom(ApplyZoom(zoom, requested).0, requested).0 == ApplyZoom(zoom, requested).0
  {
  }

  /**
   * The height of row `row` among the first `|rows|` items: the tallest size
   * hint placed on it, or 0 when it has none yet.
   */
  function Tallest(items: seq<(int, int)>, rows: seq<nat>, row: nat): (t: int)
    requires |items| == |rows|
    ensures t >= 0
  {
    if |items| == 0 then 0
    else
      var n := |items| - 1;
      var before := Tallest(items[..n], rows[..n], row);
      if rows[n] == row then MaxInt(before, items[n].1) else before
  }

  /** A row's height covers every item on it and, when positive, is one of their heights. */
  lemma {:induction false} TallestBounds(items: seq<(int, int)>, rows: seq<nat>, row: nat)
    requires |items| == |rows|
    ensures forall j :: 0 <= j < |rows| && rows[j] == row ==> items[j].1 <= Tallest(items, rows, row)
    ensures Tallest(items, rows, row) == 0
            || exists j :: 0 <= j < |rows| && rows[j] == row && items[j].1 == Tallest(items, rows, row)
  {
    if |items| > 0 {
      var n := |items| - 1;
      TallestBounds(items[..n], rows[..n], row);
      assert forall j :: 0 <= j < n ==> items[..n][j] == items[j] && rows[..n][j] == rows[j];
    }
  }

  /**
   * The flow layout's rule for item `k > 0`: with `cand` the column just past
   * its predecessor and the spacing, it starts a new row exactly when it would
   * cross the right edge and `cand` is past the left edge; a new row starts at
   * the left edge, below the predecessor's row by that row's height
   * (`prevRowH`) and the vertical spacing; otherwise it sits at `cand` on the
   * same row.
   */
  predicate FlowStep(prevItem: (int, int), prevPos: (int, int), prevRow: nat, prevRowH: int,
                     item: (int, int), pos: (int, int), row: nat,
                     left: int, right: int, hsp: int, vsp: int)
  {
    var cand := prevPos.0 + prevItem.0 + hsp;
    if cand + item.0 > right + 1 && cand > left then
      row == prevRow + 1 && pos == (left, prevPos.1 + prevRowH + vsp)
    else
      row == prevRow && pos == (cand, prevPos.1)
  }

  /**
   * `_FlowLayout._do_layout` over items' size hints `(w, h)` inside the
   * effective rectangle starting at (`left`, `top`) whose last column is
   * `right`.  Items are placed left to right by `FlowStep`, a wrapped row
   * starting below the tallest item of the row before.  Returns each item's
   * position, its row number, and the height the layout needs: down to the
   * bottom of the tallest item of the last row, plus the bottom margin.
   */
  method DoLayout(items: seq<(int, int)>, left: int, top: int, right: int, hsp: int, vsp: int,
                  rectY: int, marginBottom: int)
    returns (pos: seq<(int, int)>, rows: seq<nat>, height: int)
    ensures |pos| == |items| && |rows| == |items|
    ensures |items| > 0 ==> pos[0] == (left, top) && rows[0] == 0
    ensures Placed(items, pos, rows, left, right, hsp, vsp)
    ensures |items| == 0 ==> height == top - rectY + marginBottom
    ensures |items| > 0 ==>
      height == pos[|items| - 1].1 + Tallest(items, rows, rows[|items| - 1]) - rectY + marginBottom
    ensures |items| > 0 ==> forall j :: 0 <= j < |items| && rows[j] == rows[|items| - 1] ==>
      pos[j].1 + items[j].1 <= height + rectY - marginBottom
  {
    var x := left;
    var y := top;
    var rowH := 0;
    pos := [];
    rows := [];
    var row: nat := 0;
    var i := 0;
    while i < |items|
      invariant i <= |items|
      invariant LayoutSoFar(items, pos, rows, i, x, y, row, rowH, left, top, right, hsp, vsp)
    {
      var (w, h) := items[i];
      LayoutAdvance(items, pos, rows, i, x, y, row, rowH, left, top, right, hsp, vsp);
      var wraps := x + w > right + 1 && x > left;
      var x1 := if wraps then left else x;
      var y1 := if wraps then y + rowH + vsp else y;
      var row1 := if wraps then row + 1 else row;
      var rowH1 := if wraps then 0 else rowH;
      pos := pos + [(x1, y1)];
      rows := rows + [row1];
      x, y, row, rowH := x1 + w + hsp, y1, row1, MaxInt(rowH1, h);
      i := i + 1;
    }
    height := y + rowH - rectY + marginBottom;
    assert items[..i] == items;
    if |items| > 0 {
      TallestBounds(items, rows, row);
    }
  }

  /**
   * The state of `DoLayout` after `i` items: the next column `x`, the current
   * row `row` at height `y` with its tallest item so far `rowH`, and the
   * first `i` items placed.
   */
  predicate LayoutSoFar(items: seq<(int, int)>, pos: seq<(int, int)>, rows: seq<nat>, i: nat,
                        x: int, y: int, row: nat, rowH: int, left: int, top: int, right: int, hsp: int, vsp: int)
  {
    i <= |items| && |pos| == i && |rows| == i
    && (i == 0 ==> x == left && y == top && row == 0)
    && (i > 0 ==> x == pos[i - 1].0 + items[i - 1].0 + hsp && y == pos[i - 1].1 && row == rows[i - 1])
    && (i > 0 ==> pos[0] == (left, top) && rows[0] == 0)
    && (forall j :: 0 <= j < i ==> rows[j] <= row)
    && (forall j :: 0 <= j < i && rows[j] == row ==> pos[j].1 == y)
    && rowH == Tallest(items[..i], rows, row)
    && Placed(items, pos, rows, left, right, hsp, vsp)
  }

  /** One iteration of `DoLayout` keeps its state. */
  lemma LayoutAdvance(items: seq<(int, int)>, pos: seq<(int, int)>, rows: seq<nat>, i: nat,
                      x: int, y: int, row: nat, rowH: int, left: int, top: int, right: int, hsp: int, vsp: int)
    requires i < |items| && LayoutSoFar(items, pos, rows, i, x, y, row, rowH, left, top, right, hsp, vsp)
    ensures var wraps := x + items[i].0 > right + 1 && x > left;
      var x1 := if wraps then left else x;
      var y1 := if wraps then y + rowH + vsp else y;
      var row1 := if wraps then row + 1 else row;
      var rowH1 := if wraps then 0 else rowH;
      LayoutSoFar(items, pos + [(x1, y1)], rows + [row1], i + 1, x1 + items[i].0 + hsp, y1, row1,
                  MaxInt(rowH1, items[i].1), left, top, right, hsp, vsp)
  {
    var wraps := x + items[i].0 > right + 1 && x > left;
    var x1 := if wraps then left else x;
    var y1 := if wraps then y + rowH + vsp else y;
    var row1 := if wraps then row + 1 else row;
    var rowH1 := if wraps then 0 else rowH;
    if wraps {
      TallestEmptyRow(items[..i], rows, row + 1);
    }
    assert rowH1 == Tallest(items[..i], rows, row1);
    LayoutStep(items, rows, i, row1);
    assert items[..i + 1][..i] == items[..i];
    if i > 0 {
      assert wraps ==> row1 == rows[i - 1] + 1 && (x1, y1) == (left, pos[i - 1].1 + rowH + vsp);
      assert !wraps ==> row1 == rows[i - 1] && (x1, y1) == (pos[i - 1].0 + items[i - 1].0 + hsp, pos[i - 1].1);
    }
    PlacedSnoc(items, pos, rows, (x1, y1), row1, left, right, hsp, vsp);
    var pos', rows' := pos + [(x1, y1)], rows + [row1];
    assert forall j :: 0 <= j < i ==> pos'[j] == pos[j] && rows'[j] == rows[j];
  }

  /** A row no item is on yet has height 0. */
  lemma TallestEmptyRow(items: seq<(int, int)>, rows: seq<nat>, row: nat)
    requires |items| == |rows|
    requires forall j :: 0 <= j < |rows| ==> rows[j] < row
    ensures Tallest(items, rows, row) == 0
  {
  }

  /** Every item after the first is placed from its predecessor by `FlowStep`. */
  predicate Placed(items: seq<(int, int)>, pos: seq<(int, int)>, rows: seq<nat>,
                   left: int, right: int, hsp: int, vsp: int)
    requires |pos| == |rows| <= |items|
  {
    forall k :: 0 < k < |pos| ==>
      FlowStep(items[k - 1], pos[k - 1], rows[k - 1], Tallest(items[..k], rows[..k], rows[k - 1]),
               items[k], pos[k], rows[k], left, right, hsp, vsp)
  }

  /** Placing one more item by `FlowStep` keeps the layout placed. */
  lemma PlacedSnoc(items: seq<(int, int)>, pos: seq<(int, int)>, rows: seq<nat>, p: (int, int), row: nat,
                   left: int, right: int, hsp: int, vsp: int)
    requires |pos| == |rows| < |items|
    requires Placed(items, pos, rows, left, right, hsp, vsp)
    requires |pos| > 0 ==>
      FlowStep(items[|pos| - 1], pos[|pos| - 1], rows[|pos| - 1], Tallest(items[..|pos|], rows, rows[|pos| - 1]),
               items[|pos|], p, row, left, right, hsp, vsp)
    ensures Placed(items, pos + [p], rows + [row], left, right, hsp, vsp)
  {
    var pos', rows' := pos + [p], rows + [row];
    forall k | 0 < k < |pos'|
      ensures FlowStep(items[k - 1], pos'[k - 1], rows'[k - 1], Tallest(items[..k], rows'[..k], rows'[k - 1]),
                       items[k], pos'[k], rows'[k], left, right, hsp, vsp)
    {
      assert rows'[..k] == rows[..k];
      if k == |pos| {
        assert rows[..k] == rows;
      }
    }
  }

  /** Appending item `i` on row `row` grows the row's height to cover the new item. */
  lemma LayoutStep(items: seq<(int, int)>, rows: seq<nat>, i: nat, row: nat)
    requires i < |items| && |rows| == i
    ensures Tallest(items[..i + 1], rows + [row], row) == MaxInt(Tallest(items[..i], rows, row), items[i].1)
  {
    assert items[..i + 1][..i] == items[..i];
    assert (rows + [row])[..i] == rows;
  }

  /** Events the inline text editor reacts to. */
  datatype EditEvent = EscapeKey | CtrlEnter | PlainEnter | TypeChar(c: char) | FocusOut

  datatype EditSignal = NoSignal | Committed(text: string) | Cancelled

  /** `InlineTextEdit`: its text and whether it has already committed or cancelled. */
  datatype EditBox = EditBox(text: string, done: bool)

  /**
   * One event.  Escape cancels, Ctrl+Enter commits the text, and losing focus
   * commits non-blank text and cancels blank text; each only while not yet
   * done, and each sets the done flag.  Plain Enter inserts a line break.
   */
  function OnEvent(e: EditBox, ev: EditEvent): (r: (EditBox, EditSignal))
    ensures e.done ==> r.1 == NoSignal && r.0.done
    ensures r.1 != NoSignal ==> r.0.done && r.0.text == e.text
    ensures r.1.Committed? ==> r.1.text == e.text
    ensures ev == FocusOut && !e.done ==> (r.1.Committed? <==> Text.Strip(e.text) != "") && r.1 != NoSignal
  {
    match ev
    case EscapeKey => if e.done then (e, NoSignal) else (e.(done := true), Cancelled)
    case CtrlEnter => if e.done then (e, NoSignal) else (e.(done := true), Committed(e.text))
    case PlainEnter => (e.(text := e.text + "\n"), NoSignal)
    case TypeChar(c) => (e.(text := e.text + [c]), NoSignal)
    case FocusOut =>
      if e.done then (e, NoSignal)
      else if Text.Strip(e.text) != "" then (e.(done := true), Committed(e.text))
      else (e.(done := true), Cancelled)
  }

  /** The signals a run of events emits, in order. */
  function Run(e: EditBox, evs: seq<EditEvent>): (r: (EditBox, seq<EditSignal>))
    ensures e.done ==> r.0.done
    ensures forall k :: 0 <= k < |r.1| ==> r.1[k] != NoSignal
    decreases |evs|
  {
    if |evs| == 0 then (e, [])
    else
      var (e1, sig) := OnEvent(e, evs[0]);
      var (e2, rest) := Run(e1, evs[1..]);
      (e2, if sig == NoSignal then rest else [sig] + rest)
  }

  /**
   * Whatever the events, the editor emits at most one of `committed` and
   * `cancelled`, and none once it is done.
   */
  lemma {:induction false} AtMostOneSignal(e: EditBox, evs: seq<EditEvent>)
    ensures |Run(e, evs).1| <= 1
    ensures e.done ==> |Run(e, evs).1| == 0
    ensures |Run(e, evs).1| == 1 ==> Run(e, evs).0.done
    decreases |evs|
  {
    if |evs| > 0 {
      var (e1, sig) := OnEvent(e, evs[0]);
      AtMostOneSignal(e1, evs[1..]);
    }
  }
}

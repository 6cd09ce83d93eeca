/**
 * Export: which drawing commands each annotation bakes into a copy of the
 * student's PDF, page by page, and the `export_all` loop that decides which
 * students are exported, which are skipped, and what progress it reports.
 * The PDF library itself is left out: a baked page is the list of drawing
 * commands issued on it.
 */
module Exporter {
  import opened Wrappers
  import opened Numeric
  import opened Models
  import Overlay

  /** Stroke colours: green check marks, red crosses, blue lines, arrows and circles, black text boxes. */
  datatype Ink = Green | Red | Blue | Black

  function Rgb(ink: Ink): (real, real, real) {
    match ink
    case Green => (0.0, 0.6, 0.0)
    case Red => (0.85, 0.1, 0.1)
    case Blue => (0.08, 0.4, 0.75)
    case Black => (0.0, 0.0, 0.0)
  }

  /** A point in PDF user space (points, y growing downwards). */
  datatype Point = Point(x: real, y: real)

  /** One drawing command issued on a page. */
  datatype Draw =
    | Line(from: Point, to: Point, ink: Ink)
    /** A filled arrowhead at `tip`, pointing away from `tail`; its trigonometry is not modelled. */
    | Head(tip: Point, tail: Point)
    | Circle(center: Point, radius: real, ink: Ink)
    /** A yellow box with a thin black frame and the text inside it, 9 pt. */
    | TextBox(left: real, top: real, right: real, bottom: real, text: string)

  /** Half the size of a check mark or cross, in points. */
  function MarkSize(): real {
    Overlay.MarkerRadius as real
  }

  function Mid(l: Draw): Point
    requires l.Line?
  {
    Point((l.from.x + l.to.x) / 2.0, (l.from.y + l.to.y) / 2.0)
  }

  /**
   * `_draw_checkmark`: a short stroke down to the right and a long stroke up
   * to the right, drawn as one continuous tick whose lowest point is the
   * joint, spanning the mark's width.
   */
  function Checkmark(c: Point): (r: seq<Draw>)
    ensures |r| == 2 && r[0].Line? && r[1].Line? && r[0].ink == Green && r[1].ink == Green
    ensures r[0].to == r[1].from
    ensures r[0].from.x == c.x - MarkSize() && r[1].to.x == c.x + MarkSize()
    ensures r[0].from.x < r[0].to.x < r[1].to.x
    ensures r[0].to.y > r[0].from.y && r[0].to.y > r[1].to.y
    ensures r[1].to.y < r[0].from.y
  {
    var m := MarkSize();
    [Line(Point(c.x - m, c.y), Point(c.x - m / 3.0, c.y + m), Green),
     Line(Point(c.x - m / 3.0, c.y + m), Point(c.x + m, c.y - m), Green)]
  }

  /** Reflection in the vertical line through `c`. */
  function MirrorX(p: Point, c: Point): Point {
    Point(2.0 * c.x - p.x, p.y)
  }

  /**
   * `_draw_cross`: the two diagonals of the square of half-size 12 around
   * the centre; both cross at the centre and each is the other's mirror image.
   */
  function Cross(c: Point): (r: seq<Draw>)
    ensures |r| == 2 && r[0].Line? && r[1].Line? && r[0].ink == Red && r[1].ink == Red
    ensures Mid(r[0]) == c && Mid(r[1]) == c
    ensures MirrorX(r[0].from, c) == r[1].from && MirrorX(r[0].to, c) == r[1].to
    ensures r[0].to.x - r[0].from.x == 2.0 * MarkSize() && r[0].to.y - r[0].from.y == 2.0 * MarkSize()
  {
    var m := MarkSize();
    [Line(Point(c.x - m, c.y - m), Point(c.x + m, c.y + m), Red),
     Line(Point(c.x + m, c.y - m), Point(c.x - m, c.y + m), Red)]
  }

  /** The estimated advance of one character of 9 pt text. */
  const CharWidth: real := 5.5

  /**
   * `_draw_text`'s box width: the annotation's stored width fraction scaled
   * by the page width, at least 10 points; without one, 5.5 points per
   * character, at least 20 points.
   */
  function TextBoxWidth(text: string, width: Option<real>, pw: real): (w: real)
    ensures width.Some? ==> w >= 10.0 && w >= width.value * pw && (w == 10.0 || w == width.value * pw)
    ensures width.None? ==> w >= 20.0 && w >= |text| as real * CharWidth && (w == 20.0 || w == |text| as real * CharWidth)
  {
    if width.Some? then Max(width.value * pw, 10.0) else Max(|text| as real * CharWidth, 20.0)
  }

  /** `max(1, int(box_w / 5.5))`: how many characters the estimate puts on a line. */
  function CharsPerLine(boxW: real): (n: int)
    requires boxW >= 0.0
    ensures n >= 1
    ensures n == 1 || n as real * CharWidth <= boxW
    ensures boxW < (n + 1) as real * CharWidth
  {
    MaxInt(1, Trunc(boxW / CharWidth))
  }

  /** `max(1, ceil(len / chars_per_line))`: the estimated number of lines. */
  function LineCount(len: nat, cpl: int): (n: int)
    requires cpl >= 1
    ensures n >= 1
  {
    MaxInt(1, Ceil(len as real / cpl as real))
  }

  /** A line count is the least number of lines of `cpl` characters that holds the text. */
  lemma LineCountFits(len: nat, cpl: int)
    requires cpl >= 1
    ensures LineCount(len, cpl) * cpl >= len
    ensures len > 0 ==> (LineCount(len, cpl) - 1) * cpl < len
  {
    var v := len as real / cpl as real;
    var q := Ceil(v);
    var c := cpl as real;
    assert v * c == len as real;
    assert v <= q as real < v + 1.0;
    assert len as real <= q as real * c by {
      calc {
        len as real;
        == v * c;
        <= { MulLeRight(v, q as real, c); } q as real * c;
      }
    }
    assert (q * cpl) as real == q as real * c;
    if len > 0 {
      assert q >= 1;
      assert (q - 1) as real * c < len as real by {
        calc {
          (q - 1) as real * c;
          < { MulLtRight((q - 1) as real, v, c); } v * c;
          == len as real;
        }
      }
      assert ((q - 1) * cpl) as real == (q - 1) as real * c;
    }
  }

  lemma MulLeRight(a: real, b: real, c: real)
    requires a <= b && c >= 0.0
    ensures a * c <= b * c
  {
    MulNonNeg(b - a, c);
  }

  lemma MulLtRight(a: real, b: real, c: real)
    requires a < b && c > 0.0
    ensures a * c < b * c
  {
    MulPos(b - a, c);
  }

  /**
   * `_draw_text`: a box anchored at the annotation's position, wide enough
   * as estimated above and tall enough for the estimated lines at 11 points
   * each plus 6, and never lower than 14 points.
   */
  function DrawText(c: Point, text: string, width: Option<real>, pw: real): (r: Draw)
    ensures r.TextBox? && r.left == c.x && r.top == c.y && r.text == text
    ensures r.right - r.left == TextBoxWidth(text, width, pw)
    ensures r.bottom - r.top >= 14.0
    ensures r.bottom - r.top >= LineCount(|text|, CharsPerLine(r.right - r.left)) as real * 11.0 + 6.0
    ensures r.bottom - r.top == 14.0
            || r.bottom - r.top == LineCount(|text|, CharsPerLine(r.right - r.left)) as real * 11.0 + 6.0
  {
    var w := TextBoxWidth(text, width, pw);
    var lines := LineCount(|text|, CharsPerLine(w));
    var h := Max(14.0, lines as real * 11.0 + 6.0);
    TextBox(c.x, c.y, c.x + w, c.y + h, text)
  }

  /**
   * The baked box is tall enough for the estimated lines, and those lines,
   * at the estimated characters per line, hold the whole text with no line
   * to spare.
   */
  lemma DrawTextHoldsText(c: Point, text: string, width: Option<real>, pw: real)
    ensures var r := DrawText(c, text, width, pw);
      var cpl := CharsPerLine(r.right - r.left);
      var n := LineCount(|text|, cpl);
      n as real * 11.0 + 6.0 <= r.bottom - r.top && n * cpl >= |text| && (|text| > 0 ==> (n - 1) * cpl < |text|)
  {
    var r := DrawText(c, text, width, pw);
    var cpl := CharsPerLine(r.right - r.left);
    var n := LineCount(|text|, cpl);
    LineCountFits(|text|, cpl);
    assert n >= 1 && n as real * 11.0 + 6.0 <= r.bottom - r.top && n * cpl >= |text|;
  }

  /** `_draw_arrow`: the shaft, and a head unless the arrow has no length. */
  function Arrow(p1: Point, p2: Point): (r: seq<Draw>)
    ensures |r| >= 1 && r[0] == Line(p1, p2, Blue)
    ensures |r| == 2 <==> p1 != p2
    ensures |r| == 2 ==> r[1] == Head(p2, p1)
  {
    [Line(p1, p2, Blue)] + (if p1 == p2 then [] else [Head(p2, p1)])
  }

  /** An annotation's position on a page of `pw` by `ph` points. */
  function Anchor(a: Annotation, pw: real, ph: real): Point {
    Point(a.x * pw, a.y * ph)
  }

  function EndPoint(a: Annotation, pw: real, ph: real): Point
    requires Overlay.HasEndPoint(a)
  {
    Point(a.x2.value * pw, a.y2.value * ph)
  }

  /**
   * The overlay and the exported PDF agree on arrow heads as far as the
   * pixel grid allows: an arrow whose two ends are the same page position
   * gets no head on either, and a head on screen means a head in the PDF.
   */
  lemma ArrowHeadAgreement(a: Annotation, w: int, h: int, pw: real, ph: real)
    requires Overlay.HasEndPoint(a) && pw > 0.0 && ph > 0.0
    ensures |Arrow(Anchor(a, pw, ph), EndPoint(a, pw, ph))| == 2 <==> a.x != a.x2.value || a.y != a.y2.value
    ensures a.x == a.x2.value && a.y == a.y2.value ==> Overlay.ScreenArrowHead(a, w, h).None?
    ensures Overlay.ScreenArrowHead(a, w, h).Some? ==> |Arrow(Anchor(a, pw, ph), EndPoint(a, pw, ph))| == 2
  {
    ScaleInjective(a.x, a.x2.value, pw);
    ScaleInjective(a.y, a.y2.value, ph);
  }

  lemma ScaleInjective(u: real, v: real, k: real)
    requires k > 0.0
    ensures u * k == v * k <==> u == v
  {
    if u < v {
      MulLtRight(u, v, k);
    } else if v < u {
      MulLtRight(v, u, k);
    }
  }

  /**
   * The converse fails below a pixel: two end points that truncate to the
   * same pixel lose their head on screen but keep it in the PDF.
   */
  lemma SubPixelArrowHeadOnlyInPdf()
    ensures var a := Annotation(0, "arrow", 0.5, 0.5, None, Some(0.501), Some(0.5), None);
      Overlay.ScreenArrowHead(a, 100, 100).None? && |Arrow(Anchor(a, 612.0, 792.0), EndPoint(a, 612.0, 792.0))| == 2
  {
    var a := Annotation(0, "arrow", 0.5, 0.5, None, Some(0.501), Some(0.5), None);
    assert Trunc(0.5 * 100 as real) == 50;
    assert Trunc(0.501 * 100 as real) == 50;
    ScaleInjective(0.5, 0.501, 612.0);
  }

  /** The annotations `bake_annotations` draws anything for. */
  predicate Baked(a: Annotation) {
    a.kind == "checkmark" || a.kind == "cross" || Overlay.HasTextBox(a)
    || ((a.kind == "line" || a.kind == "arrow" || a.kind == "circle") && Overlay.HasEndPoint(a))
  }

  /**
   * The drawing commands one annotation bakes: check marks and crosses at
   * their anchor, non-empty texts as a box, and lines, arrows and circles
   * only when they have an end point.  Tildes, rectcrosses, empty texts and
   * anything else draw nothing.
   */
  function DrawAnnotation(sq: real -> real, a: Annotation, pw: real, ph: real): (r: seq<Draw>)
    ensures |r| > 0 <==> Baked(a)
    ensures a.kind == "tilde" || a.kind == "rectcross" ==> r == []
    ensures a.kind == "checkmark" ==> r == Checkmark(Anchor(a, pw, ph))
    ensures a.kind == "cross" ==> r == Cross(Anchor(a, pw, ph))
    ensures Overlay.HasTextBox(a) ==> r == [DrawText(Anchor(a, pw, ph), a.text.value, a.width, pw)]
  {
    var c := Anchor(a, pw, ph);
    if a.kind == "checkmark" then Checkmark(c)
    else if a.kind == "cross" then Cross(c)
    else if a.kind == "text" && a.text.Some? && |a.text.value| > 0 then [DrawText(c, a.text.value, a.width, pw)]
    else if a.kind == "line" && Overlay.HasEndPoint(a) then [Line(c, EndPoint(a, pw, ph), Blue)]
    else if a.kind == "arrow" && Overlay.HasEndPoint(a) then Arrow(c, EndPoint(a, pw, ph))
    else if a.kind == "circle" && Overlay.HasEndPoint(a) then
      var e := EndPoint(a, pw, ph);
      [Circle(c, sq(Sq(e.x - c.x) + Sq(e.y - c.y)), Blue)]
    else []
  }

  /** A baked circle is centred on the anchor and passes through the end point. */
  lemma CircleThroughEndPoint(sq: real -> real, a: Annotation, pw: real, ph: real)
    requires IsSqrt(sq) && a.kind == "circle" && Overlay.HasEndPoint(a)
    ensures var r := DrawAnnotation(sq, a, pw, ph);
      |r| == 1 && r[0].Circle? && r[0].center == Anchor(a, pw, ph) && r[0].radius >= 0.0
      && Sq(r[0].radius) == Sq(EndPoint(a, pw, ph).x - r[0].center.x) + Sq(EndPoint(a, pw, ph).y - r[0].center.y)
  {
    var c := Anchor(a, pw, ph);
    var e := EndPoint(a, pw, ph);
    SqNonNeg(e.x - c.x);
    SqNonNeg(e.y - c.y);
  }

  /** The commands baked on page `p`: those of its annotations, in list order. */
  function PageDraws(sq: real -> real, anns: seq<Annotation>, p: int, pw: real, ph: real): seq<Draw>
    decreases |anns|
  {
    if |anns| == 0 then []
    else
      var last := anns[|anns| - 1];
      PageDraws(sq, anns[..|anns| - 1], p, pw, ph) + (if last.page == p then DrawAnnotation(sq, last, pw, ph) else [])
  }

  /** Baking two runs of annotations is baking each in turn. */
  lemma {:induction false} PageDrawsAppend(sq: real -> real, xs: seq<Annotation>, ys: seq<Annotation>, p: int, pw: real, ph: real)
    ensures PageDraws(sq, xs + ys, p, pw, ph) == PageDraws(sq, xs, p, pw, ph) + PageDraws(sq, ys, p, pw, ph)
    decreases |ys|
  {
    if |ys| == 0 {
      assert xs + ys == xs;
    } else {
      var last := ys[|ys| - 1];
      assert (xs + ys)[..|xs + ys| - 1] == xs + ys[..|ys| - 1];
      assert (xs + ys)[|xs + ys| - 1] == last;
      PageDrawsAppend(sq, xs, ys[..|ys| - 1], p, pw, ph);
    }
  }

  /** A page none of whose annotations is on it gets no drawing at all. */
  lemma {:induction false} PageDrawsNone(sq: real -> real, anns: seq<Annotation>, p: int, pw: real, ph: real)
    requires forall i :: 0 <= i < |anns| ==> anns[i].page != p
    ensures PageDraws(sq, anns, p, pw, ph) == []
    decreases |anns|
  {
    if |anns| > 0 {
      PageDrawsNone(sq, anns[..|anns| - 1], p, pw, ph);
    }
  }

  /**
   * `bake_annotations` over a document whose pages measure `pages[i]`:
   * the commands drawn on each page.
   */
  function Bake(sq: real -> real, anns: seq<Annotation>, pages: seq<(real, real)>): (r: seq<seq<Draw>>)
    ensures |r| == |pages|
    ensures forall p :: 0 <= p < |pages| ==> r[p] == PageDraws(sq, anns, p, pages[p].0, pages[p].1)
  {
    seq(|pages|, p requires 0 <= p < |pages| => PageDraws(sq, anns, p, pages[p].0, pages[p].1))
  }

  /** An annotation whose page the document does not have changes nothing that is baked. */
  lemma BakeIgnoresMissingPage(sq: real -> real, xs: seq<Annotation>, a: Annotation, ys: seq<Annotation>,
                               pages: seq<(real, real)>)
    requires a.page < 0 || a.page >= |pages|
    ensures Bake(sq, xs + [a] + ys, pages) == Bake(sq, xs + ys, pages)
  {
    forall p | 0 <= p < |pages|
      ensures PageDraws(sq, xs + [a] + ys, p, pages[p].0, pages[p].1) == PageDraws(sq, xs + ys, p, pages[p].0, pages[p].1)
    {
      var pw := pages[p].0;
      var ph := pages[p].1;
      PageDrawsAppend(sq, xs + [a], ys, p, pw, ph);
      PageDrawsAppend(sq, xs, [a], p, pw, ph);
      PageDrawsAppend(sq, xs, ys, p, pw, ph);
      PageDrawsNone(sq, [a], p, pw, ph);
    }
  }

  /** A page without annotations is left as it was. */
  lemma BakeLeavesBarePages(sq: real -> real, anns: seq<Annotation>, pages: seq<(real, real)>, p: int)
    requires 0 <= p < |pages| && forall i :: 0 <= i < |anns| ==> anns[i].page != p
    ensures Bake(sq, anns, pages)[p] == []
  {
    PageDrawsNone(sq, anns, p, pages[p].0, pages[p].1);
  }

  // ── export_all ────────────────────────────────────────────────────────────

  /** The source PDF of a student, relative to the exams directory. */
  function SourceName(number: string): string {
    number + ".pdf"
  }

  /** The exported PDF of a student, relative to the output directory. */
  function OutputName(number: string): string {
    number + "_annotated.pdf"
  }

  /** The output files of the students whose source exists, in roster order. */
  function Exportable(students: seq<Student>, isFile: string -> bool): seq<string>
    decreases |students|
  {
    if |students| == 0 then []
    else
      var s := students[|students| - 1];
      Exportable(students[..|students| - 1], isFile) + (if isFile(SourceName(s.number)) then [OutputName(s.number)] else [])
  }

  /** An output is written exactly for a student whose source file exists. */
  lemma {:induction false} ExportableMembers(students: seq<Student>, isFile: string -> bool, name: string)
    ensures name in Exportable(students, isFile) <==>
      exists j :: 0 <= j < |students| && isFile(SourceName(students[j].number)) && name == OutputName(students[j].number)
    decreases |students|
  {
    if |students| > 0 {
      var init := students[..|students| - 1];
      ExportableMembers(init, isFile, name);
      if exists j :: 0 <= j < |init| && isFile(SourceName(init[j].number)) && name == OutputName(init[j].number) {
        var j :| 0 <= j < |init| && isFile(SourceName(init[j].number)) && name == OutputName(init[j].number);
        assert students[j] == init[j];
      }
      if exists j :: 0 <= j < |students| && isFile(SourceName(students[j].number)) && name == OutputName(students[j].number) {
        var j :| 0 <= j < |students| && isFile(SourceName(students[j].number)) && name == OutputName(students[j].number);
        if j < |init| {
          assert students[j] == init[j];
        }
      }
    }
  }

  /** The progress calls `(i, total)` for the first `n` students. */
  function Ticks(n: nat, total: int): (r: seq<(int, int)>)
    ensures |r| == n && forall i :: 0 <= i < n ==> r[i] == (i, total)
  {
    seq(n, i requires 0 <= i < n => (i, total))
  }

  /** How `export_all` ends: with its two counts, or with the failure of one student's bake. */
  datatype ExportOutcome = Finished(exported: nat, skipped: nat) | BakeFailed(index: nat)

  /**
   * `export_all`.  For every student in order it reports progress, skips a
   * student whose source PDF does not exist, and otherwise bakes and writes
   * `<number>_annotated.pdf`; after the last student it reports
   * `(total, total)`.  `isFile` answers for the exams directory, and
   * `bakes(number)` says whether loading and baking that student's
   * annotations goes through; a failing bake ends the whole export.
   */
  method ExportAll(students: seq<Student>, isFile: string -> bool, bakes: string -> bool)
    returns (outcome: ExportOutcome, written: seq<string>, progress: seq<(int, int)>)
    ensures outcome.Finished? ==>
      (written == Exportable(students, isFile) && outcome.exported == |written|
       && outcome.exported + outcome.skipped == |students|
       && progress == Ticks(|students|, |students|) + [(|students|, |students|)])
    ensures outcome.Finished? <==>
      forall j :: 0 <= j < |students| && isFile(SourceName(students[j].number)) ==> bakes(students[j].number)
    ensures outcome.BakeFailed? ==>
      (outcome.index < |students|
       && isFile(SourceName(students[outcome.index].number)) && !bakes(students[outcome.index].number)
       && (forall j :: 0 <= j < outcome.index && isFile(SourceName(students[j].number)) ==> bakes(students[j].number))
       && written == Exportable(students[..outcome.index], isFile)
       && progress == Ticks(outcome.index + 1, |students|))
  {
    var total := |students|;
    var exported := 0;
    var skipped := 0;
    written := [];
    progress := [];
    for i := 0 to total
      invariant exported == |written| && exported + skipped == i
      invariant written == Exportable(students[..i], isFile)
      invariant progress == Ticks(i, total)
      invariant forall j :: 0 <= j < i && isFile(SourceName(students[j].number)) ==> bakes(students[j].number)
    {
      progress := progress + [(i, total)];
      var number := students[i].number;
      assert students[..i + 1][..i] == students[..i];
      if !isFile(SourceName(number)) {
        skipped := skipped + 1;
      } else if !bakes(number) {
        return BakeFailed(i), written, progress;
      } else {
        written := written + [OutputName(number)];
        exported := exported + 1;
      }
    }
    assert students[..total] == students;
    progress := progress + [(total, total)];
    return Finished(exported, skipped), written, progress;
  }
}

/**
 * The left-hand student list: a search box narrows the roster to the
 * students whose names or number contain the query, and the list keeps the
 * selected student selected across filtering when it can.
 *
 * The Qt list is modelled by its current row; `-1` is "no current row", as
 * after `QListWidget.clear()`.  Every `student_selected` emission is recorded
 * in order; `None` stands for `emit(None)`.
 */
module StudentList {
  import opened Wrappers
  import opened Models
  import Text
  import Search

  /** Whether a student shows up for an already lower-cased query. */
  predicate Matches(s: Student, q: string) {
    Text.Contains(Text.Lower(s.last), q)
    || Text.Contains(Text.Lower(s.first), q)
    || Text.Contains(Text.Lower(s.number), q)
  }

  /** The students matching `q`, in roster order. */
  function Filter(xs: seq<Student>, q: string): (r: seq<Student>)
    ensures |r| <= |xs|
  {
    if |xs| == 0 then [] else (if Matches(xs[0], q) then [xs[0]] else []) + Filter(xs[1..], q)
  }

  /** A student is listed exactly when it is on the roster and matches. */
  lemma {:induction false} FilterMembers(xs: seq<Student>, q: string, s: Student)
    ensures s in Filter(xs, q) <==> s in xs && Matches(s, q)
  {
    if |xs| > 0 {
      FilterMembers(xs[1..], q, s);
      assert xs == [xs[0]] + xs[1..];
    }
  }

  /**
   * Filtering keeps roster order: the filter of two consecutive stretches
   * of the roster is the filter of the first followed by that of the second.
   */
  lemma {:induction false} FilterAppend(xs: seq<Student>, ys: seq<Student>, q: string)
    ensures Filter(xs + ys, q) == Filter(xs, q) + Filter(ys, q)
  {
    if |xs| == 0 {
      assert xs + ys == ys;
    } else {
      var head := if Matches(xs[0], q) then [xs[0]] else [];
      assert (xs + ys)[0] == xs[0];
      assert (xs + ys)[1..] == xs[1..] + ys;
      assert Filter(xs + ys, q) == head + Filter(xs[1..] + ys, q);
      FilterAppend(xs[1..], ys, q);
      assert head + (Filter(xs[1..], q) + Filter(ys, q)) == (head + Filter(xs[1..], q)) + Filter(ys, q);
    }
  }

  /** An empty search shows the whole roster. */
  lemma {:induction false} FilterEmptyQuery(xs: seq<Student>)
    ensures Filter(xs, Text.Lower("")) == xs
  {
    assert Text.Lower("") == "";
    if |xs| > 0 {
      assert Text.IsPrefixOf("", Text.Lower(xs[0].last));
      FilterEmptyQuery(xs[1..]);
    }
  }

  datatype Panel = Panel(students: seq<Student>, query: string, filtered: seq<Student>, row: int)

  /** The list shows the filter of the roster by the query, and the current row is a list row or none. */
  predicate Valid(p: Panel) {
    p.filtered == Filter(p.students, Text.Lower(p.query)) && -1 <= p.row < |p.filtered|
  }

  /** `current_student`: the student on the current row, or `None` when no row is current. */
  function CurrentStudent(p: Panel): (r: Option<Student>)
    ensures r.Some? <==> 0 <= p.row < |p.filtered|
    ensures r.Some? ==> r.value in p.filtered
  {
    if 0 <= p.row < |p.filtered| then Some(p.filtered[p.row]) else None
  }

  /** `_on_row_changed`: a row inside the list emits its student, any other row nothing. */
  function RowChanged(filtered: seq<Student>, row: int): (e: seq<Option<Student>>)
    ensures |e| <= 1
    ensures |e| == 1 <==> 0 <= row < |filtered|
    ensures |e| == 1 ==> e[0] == Some(filtered[row])
  {
    if 0 <= row < |filtered| then [Some(filtered[row])] else []
  }

  /**
   * `QListWidget.setCurrentRow` with signals connected: a change of the
   * current row fires `currentRowChanged`, which `_on_row_changed` turns into
   * an emission; setting the row it already has fires nothing.
   */
  function SetCurrentRow(p: Panel, r: int): (res: (Panel, seq<Option<Student>>))
    ensures res.0.students == p.students && res.0.query == p.query && res.0.filtered == p.filtered
    ensures res.0.row == (if 0 <= r < |p.filtered| then r else -1)
    ensures res.0.row == p.row ==> res.1 == []
    ensures res.0.row != p.row ==> res.1 == RowChanged(p.filtered, res.0.row)
  {
    var row := if 0 <= r < |p.filtered| then r else -1;
    if row == p.row then (p, []) else (p.(row := row), RowChanged(p.filtered, row))
  }

  /** The first row of `filtered` holding `number`, or -1. */
  function IndexOf(filtered: seq<Student>, number: string): (r: int)
    ensures -1 <= r < |filtered|
    ensures r == -1 <==> forall k :: 0 <= k < |filtered| ==> filtered[k].number != number
    ensures r >= 0 ==> filtered[r].number == number && forall k :: 0 <= k < r ==> filtered[k].number != number
  {
    Search.First(filtered, (s: Student) => s.number == number)
  }

  /**
   * `_apply_filter` as the code behaves: the list is rebuilt with signals
   * blocked, which leaves no current row, and the later `setCurrentRow` runs
   * with signals connected.  Keeping the previous student therefore emits it
   * once more, and the fallback to the first row emits it twice.
   */
  function ApplyFilterAsWritten(p: Panel, text: string): (Panel, seq<Option<Student>>) {
    var previous := CurrentStudent(p);
    var f := Filter(p.students, Text.Lower(text));
    var rebuilt := Panel(p.students, text, f, -1);
    if |f| == 0 then (rebuilt, [None])
    else if previous.Some? && IndexOf(f, previous.value.number) >= 0 then
      SetCurrentRow(rebuilt, IndexOf(f, previous.value.number))
    else
      var moved := SetCurrentRow(rebuilt, 0);
      (moved.0, moved.1 + [Some(f[0])])
  }

  /** When the previous student survives the filter, the code still emits that student. */
  lemma AsWrittenKeepEmits(p: Panel, text: string)
    requires CurrentStudent(p).Some?
    requires IndexOf(Filter(p.students, Text.Lower(text)), CurrentStudent(p).value.number) >= 0
    ensures |ApplyFilterAsWritten(p, text).1| == 1
    ensures ApplyFilterAsWritten(p, text).1[0].value.number == CurrentStudent(p).value.number
  {
  }

  /** When the list falls back to its first row, the code emits the first student twice. */
  lemma AsWrittenFallbackEmitsTwice(p: Panel, text: string)
    requires Filter(p.students, Text.Lower(text)) != []
    requires CurrentStudent(p).None? || IndexOf(Filter(p.students, Text.Lower(text)), CurrentStudent(p).value.number) == -1
    ensures ApplyFilterAsWritten(p, text).1 ==
      [Some(Filter(p.students, Text.Lower(text))[0]), Some(Filter(p.students, Text.Lower(text))[0])]
  {
  }

  /**
   * `_apply_filter` as intended: no matches emits `None`; a previously
   * selected student that is still listed stays current and nothing is
   * emitted; otherwise the first row becomes current and its student is
   * emitted once.
   */
  function ApplyFilter(p: Panel, text: string): (res: (Panel, seq<Option<Student>>))
    ensures Valid(res.0) && res.0.students == p.students && res.0.query == text
  {
    var previous := CurrentStudent(p);
    var f := Filter(p.students, Text.Lower(text));
    if |f| == 0 then (Panel(p.students, text, f, -1), [None])
    else if previous.Some? && IndexOf(f, previous.value.number) >= 0 then
      (Panel(p.students, text, f, IndexOf(f, previous.value.number)), [])
    else
      (Panel(p.students, text, f, 0), [Some(f[0])])
  }

  /**
   * The three outcomes of filtering, and nothing else: an empty list emits
   * `None` and has no current row; a surviving selection stays selected
   * silently; otherwise the first student is selected and announced.
   */
  lemma ApplyFilterOutcome(p: Panel, text: string)
    ensures var (q, e) := ApplyFilter(p, text);
      (q.filtered == [] ==> q.row == -1 && e == [None])
      && (q.filtered != [] ==>
            q.row >= 0
            && if CurrentStudent(p).Some? && CurrentStudent(p).value.number in Numbers(q.filtered) then
                 CurrentStudent(q).value.number == CurrentStudent(p).value.number && e == []
               else
                 q.row == 0 && e == [Some(q.filtered[0])])
  {
    var f := Filter(p.students, Text.Lower(text));
    if CurrentStudent(p).Some? {
      NumbersIndexOf(f, CurrentStudent(p).value.number);
    }
  }

  function Numbers(xs: seq<Student>): (r: seq<string>)
    ensures |r| == |xs|
    ensures forall k :: 0 <= k < |xs| ==> r[k] == xs[k].number
  {
    seq(|xs|, k requires 0 <= k < |xs| => xs[k].number)
  }

  lemma NumbersIndexOf(xs: seq<Student>, number: string)
    ensures number in Numbers(xs) <==> IndexOf(xs, number) >= 0
  {
    if number in Numbers(xs) {
      var k :| 0 <= k < |xs| && Numbers(xs)[k] == number;
    }
  }

  /** No two entries carry the same student number. */
  predicate DistinctNumbers(xs: seq<Student>) {
    forall i, j :: 0 <= i < j < |xs| ==> xs[i].number != xs[j].number
  }

  /** Re-applying the query the list already shows changes nothing and emits nothing. */
  lemma ApplyFilterSameQueryKeeps(p: Panel)
    requires Valid(p) && p.row >= 0 && DistinctNumbers(p.filtered)
    ensures ApplyFilter(p, p.query) == (p, [])
  {
  }

  /** `set_students`: replace the roster and re-apply the current query. */
  function SetStudents(p: Panel, students: seq<Student>): (res: (Panel, seq<Option<Student>>))
    ensures Valid(res.0) && res.0.students == students && res.0.query == p.query
  {
    ApplyFilter(p.(students := students), p.query)
  }

  /**
   * `select_student`: the first listed student with that number becomes
   * current (announced if the row changes); a student not listed changes
   * nothing.
   */
  function SelectStudent(p: Panel, s: Student): (res: (Panel, seq<Option<Student>>))
    ensures IndexOf(p.filtered, s.number) == -1 ==> res == (p, [])
    ensures IndexOf(p.filtered, s.number) >= 0 ==>
      CurrentStudent(res.0).Some? && CurrentStudent(res.0).value.number == s.number
    ensures Valid(p) ==> Valid(res.0)
    ensures forall e :: e in res.1 ==> e.Some? && e.value.number == s.number
  {
    var i := IndexOf(p.filtered, s.number);
    if i == -1 then (p, []) else SetCurrentRow(p, i)
  }
}

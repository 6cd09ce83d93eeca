/**
 * The main window's bookkeeping around the current student: switching to a
 * student (which reloads that student's PDF), stepping to the previous or
 * next student of the visible list, storing a score, and collecting the
 * extra column names across the roster.
 */
module MainWindow {
  import opened Wrappers
  import opened Models
  import Assoc
  import GradeBook
  import StudentList
  import GradingPanel

  /**
   * The part of the window these operations touch: the roster, the current
   * student, the grades, and how many times a PDF has been loaded into the
   * viewer (each `load_pdf` call counts once).
   */
  datatype Window = Window(students: seq<Student>, current: Option<Student>, grades: GradeBook.GradeMap, loads: nat)

  /**
   * `_select_student`: choosing the student already current (by number) does
   * nothing; any other student becomes current and its PDF is loaded.
   */
  function SelectStudent(w: Window, s: Student): (r: Window)
    ensures r.students == w.students && r.grades == w.grades
    ensures r.current.Some? && r.current.value.number == s.number
    ensures w.current.Some? && w.current.value.number == s.number ==> r == w
    ensures !(w.current.Some? && w.current.value.number == s.number) ==>
      r.current == Some(s) && r.loads == w.loads + 1
  {
    if w.current.Some? && s.number == w.current.value.number then w
    else w.(current := Some(s), loads := w.loads + 1)
  }

  /** Selecting the same student twice loads its PDF once. */
  lemma SelectStudentIdempotent(w: Window, s: Student)
    ensures SelectStudent(SelectStudent(w, s), s) == SelectStudent(w, s)
    ensures SelectStudent(SelectStudent(w, s), s).loads <= w.loads + 1
  {
  }

  /** `_on_student_selected`: the list's "nothing selected" signal is ignored. */
  function OnStudentSelected(w: Window, s: Option<Student>): (r: Window)
    ensures s.None? ==> r == w
    ensures s.Some? ==> r == SelectStudent(w, s.value)
  {
    match s
    case None => w
    case Some(st) => SelectStudent(w, st)
  }

  /**
   * The row of the current student in the visible list, as the
   * `next(..., -1)` search finds it: the first row with its number, or -1.
   */
  function CurrentIndex(visible: seq<Student>, current: Student): int {
    StudentList.IndexOf(visible, current.number)
  }

  /**
   * `_select_prev_student`'s choice: with a roster and a current student
   * listed below the top of the visible list, the student one row up;
   * otherwise nobody.
   */
  function PrevTarget(w: Window, visible: seq<Student>): (r: Option<Student>)
    ensures r.Some? <==> |w.students| > 0 && w.current.Some? && CurrentIndex(visible, w.current.value) > 0
    ensures r.Some? ==> r.value == visible[CurrentIndex(visible, w.current.value) - 1]
  {
    if |w.students| == 0 || w.current.None? then None
    else
      var idx := CurrentIndex(visible, w.current.value);
      if idx > 0 then Some(visible[idx - 1]) else None
  }

  /** `_select_next_student`'s choice: the student one row down, when there is one. */
  function NextTarget(w: Window, visible: seq<Student>): (r: Option<Student>)
    ensures r.Some? <==> |w.students| > 0 && w.current.Some? && 0 <= CurrentIndex(visible, w.current.value) < |visible| - 1
    ensures r.Some? ==> r.value == visible[CurrentIndex(visible, w.current.value) + 1]
  {
    if |w.students| == 0 || w.current.None? then None
    else
      var idx := CurrentIndex(visible, w.current.value);
      if 0 <= idx < |visible| - 1 then Some(visible[idx + 1]) else None
  }

  /** Shift+Alt+Left. */
  function SelectPrev(w: Window, visible: seq<Student>): (r: Window)
    ensures PrevTarget(w, visible).None? ==> r == w
    ensures PrevTarget(w, visible).Some? ==> r.current == PrevTarget(w, visible) && r.loads == w.loads + 1
  {
    match PrevTarget(w, visible)
    case None => w
    case Some(t) => SelectStudent(w, t)
  }

  /**
   * Shift+Alt+Right.  When the next row repeats the current student's
   * number, `_select_student` treats it as already current and nothing
   * happens.
   */
  function SelectNext(w: Window, visible: seq<Student>): (r: Window)
    ensures NextTarget(w, visible).None? ==> r == w
    ensures NextTarget(w, visible).Some? && NextTarget(w, visible).value.number == w.current.value.number ==> r == w
    ensures NextTarget(w, visible).Some? && NextTarget(w, visible).value.number != w.current.value.number ==>
      r.current == NextTarget(w, visible) && r.loads == w.loads + 1
  {
    match NextTarget(w, visible)
    case None => w
    case Some(t) => SelectStudent(w, t)
  }

  /**
   * With distinct numbers in the visible list, stepping back and then
   * forward returns to a student with the number one started from, and
   * stepping forward then back likewise.
   */
  lemma PrevNextInverse(w: Window, visible: seq<Student>)
    requires StudentList.DistinctNumbers(visible)
    ensures PrevTarget(w, visible).Some? ==>
      NextTarget(SelectPrev(w, visible), visible).Some?
      && NextTarget(SelectPrev(w, visible), visible).value.number == w.current.value.number
    ensures NextTarget(w, visible).Some? ==>
      PrevTarget(SelectNext(w, visible), visible).Some?
      && PrevTarget(SelectNext(w, visible), visible).value.number == w.current.value.number
  {
    if PrevTarget(w, visible).Some? {
      var idx := CurrentIndex(visible, w.current.value);
      IndexOfDistinct(visible, idx - 1);
    }
    if NextTarget(w, visible).Some? {
      var idx := CurrentIndex(visible, w.current.value);
      IndexOfDistinct(visible, idx + 1);
    }
  }

  /** In a list with distinct numbers, a row's number is found at that row. */
  lemma IndexOfDistinct(visible: seq<Student>, k: nat)
    requires StudentList.DistinctNumbers(visible) && k < |visible|
    ensures StudentList.IndexOf(visible, visible[k].number) == k
  {
  }

  /** `_on_grade_changed`: the score is stored under the student, creating the student's map when missing. */
  function OnGradeChanged(w: Window, sn: string, sq: string, points: real): (r: Window)
    ensures r.students == w.students && r.current == w.current && r.loads == w.loads
    ensures GradeBook.Score(r.grades, sn, sq) == Some(points)
    ensures forall sn', sq' :: (sn', sq') != (sn, sq) ==> GradeBook.Score(r.grades, sn', sq') == GradeBook.Score(w.grades, sn', sq')
  {
    GradeBook.SetScoreGetAll(w.grades, sn, sq, points);
    w.(grades := GradeBook.SetScore(w.grades, sn, sq, points))
  }

  /**
   * `_extra_field_names` as the code computes it: a pass over each
   * student's extra columns, collecting every name not seen before.
   */
  method ExtraFieldNames(students: seq<Student>) returns (names: seq<string>)
    ensures names == GradingPanel.ExtraFieldNames(students)
  {
    names := [];
    var seen: set<string> := {};
    for i := 0 to |students|
      invariant names == GradingPanel.ExtraFieldNames(students[..i])
      invariant forall k :: k in seen <==> k in names
    {
      names, seen := AddUnseen(names, seen, Assoc.Keys(students[i].extra));
      ExtraFieldNamesStep(students, i);
    }
    assert students[..|students|] == students;
  }

  /** The inner loop: each key not in `seen` is appended and remembered. */
  method AddUnseen(names0: seq<string>, seen0: set<string>, ks: seq<string>) returns (names: seq<string>, seen: set<string>)
    requires forall k :: k in seen0 <==> k in names0
    ensures names == GradingPanel.AddNew(names0, ks)
    ensures forall k :: k in seen <==> k in names
  {
    names, seen := names0, seen0;
    for j := 0 to |ks|
      invariant names == GradingPanel.AddNew(names0, ks[..j])
      invariant forall k :: k in seen <==> k in names
    {
      AddUnseenStep(names0, ks, j, names);
      if ks[j] !in seen {
        seen := seen + {ks[j]};
        names := names + [ks[j]];
      }
    }
    assert ks[..|ks|] == ks;
  }

  /** One more key of the inner loop is appended exactly when the names so far lack it. */
  lemma AddUnseenStep(names0: seq<string>, ks: seq<string>, j: nat, names: seq<string>)
    requires j < |ks| && names == GradingPanel.AddNew(names0, ks[..j])
    ensures GradingPanel.AddNew(names0, ks[..j + 1]) == if ks[j] in names then names else names + [ks[j]]
  {
    var before, k := ks[..j], ks[j];
    assert ks[..j + 1] == before + [k];
    GradingPanel.AddNewSnoc(names0, before, k);
  }

  /** The names of one more student are those of the students before, plus that student's new ones. */
  lemma ExtraFieldNamesStep(students: seq<Student>, i: nat)
    requires i < |students|
    ensures GradingPanel.ExtraFieldNames(students[..i + 1]) ==
      GradingPanel.AddNew(GradingPanel.ExtraFieldNames(students[..i]), Assoc.Keys(students[i].extra))
  {
    assert students[..i + 1][..i] == students[..i];
  }
}

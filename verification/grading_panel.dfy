/**
 * The grade-entry spreadsheet: which students it lists, where every column
 * and row sits, how a typed cell becomes a grade, and which cell gets the
 * focus when a student is selected.
 */
module GradingPanel {
  import opened Wrappers
  import opened Models
  import Assoc
  import Text
  import GradeBook
  import StudentList
  import Search

  /** Exercise names, subquestion names and maximum points head the table. */
  const HeaderRows: nat := 3

  /** Student and number come before the first subquestion. */
  const SubquestionStart: nat := 2

  // ---------------------------------------------------------------------
  // Filtering
  // ---------------------------------------------------------------------

  /** The search-mode box's four entries. */
  datatype SearchMode = NameAndId | NameOnly | IdOnly | AnnotationText

  predicate InExtraValue(extra: seq<(string, string)>, q: string) {
    exists k :: 0 <= k < |extra| && Text.Contains(Text.Lower(extra[k].1), q)
  }

  /** Some non-empty annotation text contains the query. */
  predicate InAnnotationText(anns: seq<Annotation>, q: string) {
    exists k :: 0 <= k < |anns| && anns[k].text.Some? && anns[k].text.value != ""
      && Text.Contains(Text.Lower(anns[k].text.value), q)
  }

  /**
   * Whether a student matches a lower-cased query in a mode; the annotation
   * mode reads the student's saved annotations, given as `annotationsOf`.
   */
  predicate ModeMatches(s: Student, mode: SearchMode, q: string, annotationsOf: string -> seq<Annotation>) {
    match mode
    case NameAndId =>
      Text.Contains(Text.Lower(s.last), q) || Text.Contains(Text.Lower(s.first), q)
      || Text.Contains(Text.Lower(s.number), q) || InExtraValue(s.extra, q)
    case NameOnly => Text.Contains(Text.Lower(s.last), q) || Text.Contains(Text.Lower(s.first), q)
    case IdOnly => Text.Contains(Text.Lower(s.number), q)
    case AnnotationText => InAnnotationText(annotationsOf(s.number), q)
  }

  function Keep(xs: seq<Student>, mode: SearchMode, q: string, annotationsOf: string -> seq<Annotation>): (r: seq<Student>)
    ensures |r| <= |xs|
  {
    if |xs| == 0 then []
    else (if ModeMatches(xs[0], mode, q, annotationsOf) then [xs[0]] else []) + Keep(xs[1..], mode, q, annotationsOf)
  }

  /** `_filtered_students`: the stripped, lower-cased query; a blank one lists everybody. */
  function FilteredStudents(students: seq<Student>, search: string, mode: SearchMode,
                            annotationsOf: string -> seq<Annotation>): (r: seq<Student>)
    ensures Text.Strip(search) == "" ==> r == students
  {
    var q := Text.Lower(Text.Strip(search));
    if q == [] then students else Keep(students, mode, q, annotationsOf)
  }

  /** With a non-blank query, a student is listed exactly when it matches in the chosen mode. */
  lemma {:induction false} KeepMembers(xs: seq<Student>, mode: SearchMode, q: string,
                                       annotationsOf: string -> seq<Annotation>, s: Student)
    ensures s in Keep(xs, mode, q, annotationsOf) <==> s in xs && ModeMatches(s, mode, q, annotationsOf)
  {
    if |xs| > 0 {
      KeepMembers(xs[1..], mode, q, annotationsOf, s);
      assert xs == [xs[0]] + xs[1..];
    }
  }

  /** Filtering keeps roster order. */
  lemma {:induction false} KeepAppend(xs: seq<Student>, ys: seq<Student>, mode: SearchMode, q: string,
                                      annotationsOf: string -> seq<Annotation>)
    ensures Keep(xs + ys, mode, q, annotationsOf) == Keep(xs, mode, q, annotationsOf) + Keep(ys, mode, q, annotationsOf)
  {
    if |xs| == 0 {
      assert xs + ys == ys;
    } else {
      var head := if ModeMatches(xs[0], mode, q, annotationsOf) then [xs[0]] else [];
      assert (xs + ys)[0] == xs[0];
      assert (xs + ys)[1..] == xs[1..] + ys;
      assert Keep(xs + ys, mode, q, annotationsOf) == head + Keep(xs[1..] + ys, mode, q, annotationsOf);
      KeepAppend(xs[1..], ys, mode, q, annotationsOf);
      assert head + (Keep(xs[1..], mode, q, annotationsOf) + Keep(ys, mode, q, annotationsOf))
        == (head + Keep(xs[1..], mode, q, annotationsOf)) + Keep(ys, mode, q, annotationsOf);
    }
  }

  /**
   * "Name + ID" is the widest of the three field modes: whatever "Name" or
   * "ID" finds, it finds too, and it agrees with the student list's search
   * on everybody that search finds.
   */
  lemma NameAndIdWidest(s: Student, q: string, annotationsOf: string -> seq<Annotation>)
    ensures ModeMatches(s, NameOnly, q, annotationsOf) ==> ModeMatches(s, NameAndId, q, annotationsOf)
    ensures ModeMatches(s, IdOnly, q, annotationsOf) ==> ModeMatches(s, NameAndId, q, annotationsOf)
    ensures StudentList.Matches(s, q) ==> ModeMatches(s, NameAndId, q, annotationsOf)
    ensures ModeMatches(s, NameAndId, q, annotationsOf) ==> StudentList.Matches(s, q) || InExtraValue(s.extra, q)
  {
  }

  // ---------------------------------------------------------------------
  // Layout
  // ---------------------------------------------------------------------

  /** A column of the table, by role. */
  datatype Column = NameColumn | NumberColumn | SubquestionColumn(i: nat) | TotalColumn | GradeColumn | ExtraColumn(e: nat)

  /** Where a column sits, for `sqCount` subquestions. */
  function ColumnIndex(c: Column, sqCount: nat): nat {
    match c
    case NameColumn => 0
    case NumberColumn => 1
    case SubquestionColumn(i) => SubquestionStart + i
    case TotalColumn => SubquestionStart + sqCount
    case GradeColumn => SubquestionStart + sqCount + 1
    case ExtraColumn(e) => SubquestionStart + sqCount + 2 + e
  }

  function ColumnCount(sqCount: nat, extraCount: nat): nat {
    SubquestionStart + sqCount + 2 + extraCount
  }

  predicate ColumnExists(c: Column, sqCount: nat, extraCount: nat) {
    match c
    case SubquestionColumn(i) => i < sqCount
    case ExtraColumn(e) => e < extraCount
    case _ => true
  }

  /** The role of a column index, or `None` outside the table. */
  function ClassifyColumn(col: int, sqCount: nat, extraCount: nat): Option<Column> {
    if col < 0 || col >= ColumnCount(sqCount, extraCount) then None
    else if col == 0 then Some(NameColumn)
    else if col == 1 then Some(NumberColumn)
    else if col < SubquestionStart + sqCount then Some(SubquestionColumn(col - SubquestionStart))
    else if col == SubquestionStart + sqCount then Some(TotalColumn)
    else if col == SubquestionStart + sqCount + 1 then Some(GradeColumn)
    else Some(ExtraColumn(col - SubquestionStart - sqCount - 2))
  }

  /**
   * The layout is a bijection between the existing columns and
   * `0 .. ColumnCount`: every column's index is classified back as that
   * column, and every index inside the table is some column's index.
   */
  lemma ColumnLayout(sqCount: nat, extraCount: nat, c: Column, col: int)
    ensures ColumnExists(c, sqCount, extraCount) ==>
      ColumnIndex(c, sqCount) < ColumnCount(sqCount, extraCount)
      && ClassifyColumn(ColumnIndex(c, sqCount), sqCount, extraCount) == Some(c)
    ensures ClassifyColumn(col, sqCount, extraCount).Some? <==> 0 <= col < ColumnCount(sqCount, extraCount)
    ensures ClassifyColumn(col, sqCount, extraCount) == Some(c) ==>
      ColumnExists(c, sqCount, extraCount) && ColumnIndex(c, sqCount) == col
  {
  }

  /** A row of the table, by role. */
  datatype Row = HeaderRow(h: nat) | StudentRow(k: nat) | AverageRow | ExerciseAverageRow

  function RowIndex(r: Row, studentCount: nat): nat {
    match r
    case HeaderRow(h) => h
    case StudentRow(k) => HeaderRows + k
    case AverageRow => HeaderRows + studentCount
    case ExerciseAverageRow => HeaderRows + studentCount + 1
  }

  /** Three header rows, one per listed student, and the two average rows. */
  function RowCount(studentCount: nat): nat {
    HeaderRows + studentCount + 2
  }

  predicate RowExists(r: Row, studentCount: nat) {
    match r
    case HeaderRow(h) => h < HeaderRows
    case StudentRow(k) => k < studentCount
    case _ => true
  }

  function ClassifyRow(row: int, studentCount: nat): Option<Row> {
    if row < 0 || row >= RowCount(studentCount) then None
    else if row < HeaderRows then Some(HeaderRow(row))
    else if row < HeaderRows + studentCount then Some(StudentRow(row - HeaderRows))
    else if row == HeaderRows + studentCount then Some(AverageRow)
    else Some(ExerciseAverageRow)
  }

  /** The rows, like the columns, are laid out one-to-one over `0 .. RowCount`. */
  lemma RowLayout(studentCount: nat, r: Row, row: int)
    ensures RowExists(r, studentCount) ==>
      RowIndex(r, studentCount) < RowCount(studentCount)
      && ClassifyRow(RowIndex(r, studentCount), studentCount) == Some(r)
    ensures ClassifyRow(row, studentCount).Some? <==> 0 <= row < RowCount(studentCount)
    ensures ClassifyRow(row, studentCount) == Some(r) ==>
      RowExists(r, studentCount) && RowIndex(r, studentCount) == row
  {
  }

  // ---------------------------------------------------------------------
  // Editing a grade cell
  // ---------------------------------------------------------------------

  /** What a typed cell says. */
  datatype CellInput = Blank | Value(v: real) | Invalid

  /**
   * The cell text, stripped, with a decimal comma read as a point: blank
   * text, a non-negative number, or something to reject.
   */
  function ParseCell(text: string): (r: CellInput)
    ensures r.Blank? <==> Text.Strip(text) == ""
    ensures r.Value? ==> r.v >= 0.0
  {
    ReadNumber(Text.ReplaceChar(Text.Strip(text), ',', '.'))
  }

  /** The policy on the normalised text: empty, a non-negative number, or rejected. */
  function ReadNumber(t: string): (r: CellInput)
    ensures r.Blank? <==> t == ""
    ensures r.Value? ==> r.v >= 0.0
  {
    if t == [] then Blank
    else match Text.ParseFloat(t)
      case None => Invalid
      case Some(v) => if v < 0.0 then Invalid else Value(v)
  }

  /** Text without surrounding whitespace is only comma-normalised before it is read. */
  lemma ParseCellUnpadded(s: string)
    requires |s| > 0 && !Text.IsSpace(s[0]) && !Text.IsSpace(s[|s| - 1])
    ensures ParseCell(s) == ReadNumber(Text.ReplaceChar(s, ',', '.'))
  {
    Text.StripNoSpaceEnds(s);
  }

  lemma ReadNumberOf(t: string, v: real)
    requires t != [] && Text.ParseFloat(t) == Some(v)
    ensures ReadNumber(t) == if v < 0.0 then Invalid else Value(v)
  {
  }

  /**
   * A decimal comma reads exactly as a decimal point: `a,b` and `a.b` give
   * the same grade, the number `a + b / 10^|b|`.
   */
  lemma ParseCellDecimalComma(a: string, b: string)
    requires |a| > 0 && |b| > 0 && Text.AllDigits(a) && Text.AllDigits(b)
    ensures ParseCell(a + [','] + b) == ParseCell(a + ['.'] + b)
    ensures ParseCell(a + ['.'] + b) == Value(Text.DecimalValue(a, b))
  {
    var s := a + [','] + b;
    var t := a + ['.'] + b;
    assert Text.ReplaceChar(s, ',', '.') == t;
    assert Text.ReplaceChar(t, ',', '.') == t;
    assert s[|s| - 1] == b[|b| - 1] && t[|t| - 1] == b[|b| - 1];
    ParseCellUnpadded(s);
    ParseCellUnpadded(t);
    Text.ParseFloatDecimal(a, b);
    ReadNumberOf(t, Text.DecimalValue(a, b));
  }

  /** A negative number is rejected, not stored. */
  lemma ParseCellNegative(a: string)
    requires |a| > 0 && Text.AllDigits(a) && Text.DigitsValue(a) > 0
    ensures ParseCell(['-'] + a) == Invalid
  {
    var t := ['-'] + a;
    assert Text.ReplaceChar(t, ',', '.') == t;
    assert t[|t| - 1] == a[|a| - 1];
    ParseCellUnpadded(t);
    Text.ParseFloatNegativeDigits(a);
    ReadNumberOf(t, Text.ParseFloat(t).value);
  }

  /** What `_on_item_changed` did with an edit. */
  datatype CellEdit = Ignored | Cleared | Restored(previous: Option<real>) | Stored(value: real)

  datatype PanelState = PanelState(grades: GradeBook.GradeMap, lastFocus: seq<(string, string)>)

  /** The edited cell is a grade cell of a listed student. */
  predicate IsGradeCell(rebuilding: bool, studentCount: nat, sqCount: nat, row: int, col: int) {
    !rebuilding && HeaderRows <= row < HeaderRows + studentCount
    && SubquestionStart <= col < SubquestionStart + sqCount
  }

  /**
   * `_on_item_changed`: returns the new state, what happened, and the
   * `grade_changed` emission if any.
   */
  function OnItemChanged(st: PanelState, rebuilding: bool, filtered: seq<Student>, sqs: seq<Subquestion>,
                         row: int, col: int, text: string): (PanelState, CellEdit, Option<(string, string, real)>)
  {
    if !IsGradeCell(rebuilding, |filtered|, |sqs|, row, col) then (st, Ignored, None)
    else
      var sq := sqs[col - SubquestionStart];
      var sn := filtered[row - HeaderRows].number;
      match ParseCell(text)
      case Blank => (st.(grades := GradeBook.ClearScore(st.grades, sn, sq.name)), Cleared, None)
      case Invalid => (st, Restored(GradeBook.Score(st.grades, sn, sq.name)), None)
      case Value(v) =>
        (PanelState(GradeBook.SetScore(st.grades, sn, sq.name, v), Assoc.Put(st.lastFocus, sn, sq.name)),
         Stored(v), Some((sn, sq.name, v)))
  }

  /** Edits outside the grade cells, and edits made while the table is rebuilt, change nothing. */
  lemma OnItemChangedIgnored(st: PanelState, rebuilding: bool, filtered: seq<Student>, sqs: seq<Subquestion>,
                             row: int, col: int, text: string)
    ensures OnItemChanged(st, rebuilding, filtered, sqs, row, col, text).1 == Ignored
      <==> !IsGradeCell(rebuilding, |filtered|, |sqs|, row, col)
    ensures !IsGradeCell(rebuilding, |filtered|, |sqs|, row, col) ==>
      OnItemChanged(st, rebuilding, filtered, sqs, row, col, text) == (st, Ignored, None)
    ensures IsGradeCell(rebuilding, |filtered|, |sqs|, row, col) <==>
      !rebuilding
      && ClassifyRow(row, |filtered|).Some? && ClassifyRow(row, |filtered|).value.StudentRow?
      && ClassifyColumn(col, |sqs|, 0).Some? && ClassifyColumn(col, |sqs|, 0).value.SubquestionColumn?
  {
  }

  /**
   * A blank cell removes that student's grade for that subquestion and
   * nothing else, remembers no focus and emits nothing.
   */
  lemma OnItemChangedBlank(st: PanelState, filtered: seq<Student>, sqs: seq<Subquestion>,
                           row: int, col: int, text: string, sn': string, sq': string)
    requires IsGradeCell(false, |filtered|, |sqs|, row, col)
    requires Assoc.WellFormed(Assoc.Get(st.grades, filtered[row - HeaderRows].number).GetOr([]))
    requires Text.Strip(text) == ""
    ensures var (st', edit, emitted) := OnItemChanged(st, false, filtered, sqs, row, col, text);
      var sn := filtered[row - HeaderRows].number;
      var sq := sqs[col - SubquestionStart].name;
      edit == Cleared && emitted.None? && st'.lastFocus == st.lastFocus
      && GradeBook.Score(st'.grades, sn', sq') == (if sn' == sn && sq' == sq then None else GradeBook.Score(st.grades, sn', sq'))
  {
    GradeBook.ClearScoreGet(st.grades, filtered[row - HeaderRows].number, sqs[col - SubquestionStart].name, sn', sq');
  }

  /** Negative or unreadable text leaves the grades alone and puts the previous value back. */
  lemma OnItemChangedInvalid(st: PanelState, filtered: seq<Student>, sqs: seq<Subquestion>,
                             row: int, col: int, text: string)
    requires IsGradeCell(false, |filtered|, |sqs|, row, col)
    requires ParseCell(text).Invalid?
    ensures OnItemChanged(st, false, filtered, sqs, row, col, text) ==
      (st, Restored(GradeBook.Score(st.grades, filtered[row - HeaderRows].number, sqs[col - SubquestionStart].name)), None)
  {
  }

  /**
   * A valid value is stored for exactly that (student, subquestion), becomes
   * the student's remembered cell, and is announced.
   */
  lemma OnItemChangedStore(st: PanelState, filtered: seq<Student>, sqs: seq<Subquestion>,
                           row: int, col: int, text: string, sn': string, sq': string)
    requires IsGradeCell(false, |filtered|, |sqs|, row, col)
    requires ParseCell(text).Value?
    ensures var (st', edit, emitted) := OnItemChanged(st, false, filtered, sqs, row, col, text);
      var sn := filtered[row - HeaderRows].number;
      var sq := sqs[col - SubquestionStart].name;
      var v := ParseCell(text).v;
      edit == Stored(v) && v >= 0.0 && emitted == Some((sn, sq, v))
      && Assoc.Get(st'.lastFocus, sn) == Some(sq)
      && (forall other :: other != sn ==> Assoc.Get(st'.lastFocus, other) == Assoc.Get(st.lastFocus, other))
      && GradeBook.Score(st'.grades, sn', sq') == (if sn' == sn && sq' == sq then Some(v) else GradeBook.Score(st.grades, sn', sq'))
  {
    var sn := filtered[row - HeaderRows].number;
    var sq := sqs[col - SubquestionStart].name;
    GradeBook.SetScoreGet(st.grades, sn, sq, ParseCell(text).v, sn', sq');
    forall other
      ensures Assoc.Get(Assoc.Put(st.lastFocus, sn, sq), other) == if other == sn then Some(sq) else Assoc.Get(st.lastFocus, other)
    {
      Assoc.PutGet(st.lastFocus, sn, sq, other);
    }
  }

  // ---------------------------------------------------------------------
  // Focus and extra fields
  // ---------------------------------------------------------------------

  /** The first subquestion called `name`, or -1. */
  function SubquestionIndex(sqs: seq<Subquestion>, name: string): (r: int)
    ensures -1 <= r < |sqs|
    ensures r == -1 <==> forall k :: 0 <= k < |sqs| ==> sqs[k].name != name
    ensures r >= 0 ==> sqs[r].name == name && forall k :: 0 <= k < r ==> sqs[k].name != name
  {
    Search.First(sqs, (q: Subquestion) => q.name == name)
  }

  /**
   * `focus_student_cell`: the (row, column) to edit for a student, or
   * `None` when the student is not listed or there are no subquestions.
   */
  function FocusStudentCell(filtered: seq<Student>, sqs: seq<Subquestion>, lastFocus: seq<(string, string)>,
                            number: string): Option<(nat, nat)>
  {
    var dataRow := StudentList.IndexOf(filtered, number);
    if dataRow < 0 || |sqs| == 0 then None
    else
      var last := Assoc.Get(lastFocus, number);
      var k := if last.Some? && last.value != "" then SubquestionIndex(sqs, last.value) else -1;
      Some((HeaderRows + dataRow, SubquestionStart + (if k >= 0 then k else 0)))
  }

  /**
   * The focused cell is on the student's row; it is the column of the
   * subquestion last edited for that student while it still exists, and the
   * first grade column otherwise.
   */
  lemma FocusStudentCellTarget(filtered: seq<Student>, sqs: seq<Subquestion>, lastFocus: seq<(string, string)>,
                               number: string)
    ensures FocusStudentCell(filtered, sqs, lastFocus, number).None? <==>
      (forall k :: 0 <= k < |filtered| ==> filtered[k].number != number) || |sqs| == 0
    ensures match FocusStudentCell(filtered, sqs, lastFocus, number)
      case None => true
      case Some((row, col)) =>
        ClassifyRow(row, |filtered|).Some? && ClassifyRow(row, |filtered|).value.StudentRow?
        && filtered[row - HeaderRows].number == number
        && ClassifyColumn(col, |sqs|, 0).Some? && ClassifyColumn(col, |sqs|, 0).value.SubquestionColumn?
        && (var last := Assoc.Get(lastFocus, number);
            if last.Some? && last.value != "" && exists k :: 0 <= k < |sqs| && sqs[k].name == last.value
            then sqs[col - SubquestionStart].name == last.value
            else col == SubquestionStart)
  {
  }

  /** Adds each key of `ks` that `acc` does not hold yet, in order. */
  function AddNew(acc: seq<string>, ks: seq<string>): (r: seq<string>)
    ensures |acc| <= |r| && r[..|acc|] == acc
    ensures forall k :: k in r <==> k in acc || k in ks
    ensures Assoc.Distinct(acc) ==> Assoc.Distinct(r)
    decreases |ks|
  {
    if |ks| == 0 then acc
    else if ks[0] in acc then AddNew(acc, ks[1..])
    else
      var r := AddNew(acc + [ks[0]], ks[1..]);
      assert (acc + [ks[0]])[..|acc|] == acc;
      r
  }

  /** Adding one more key on the end adds it unless it is already there. */
  lemma {:induction false} AddNewSnoc(acc: seq<string>, ks: seq<string>, k: string)
    ensures AddNew(acc, ks + [k]) == if k in AddNew(acc, ks) then AddNew(acc, ks) else AddNew(acc, ks) + [k]
    decreases |ks|
  {
    if |ks| == 0 {
      assert ks + [k] == [k];
      assert [k][1..] == [];
    } else {
      assert (ks + [k])[0] == ks[0];
      assert (ks + [k])[1..] == ks[1..] + [k];
      if ks[0] in acc {
        AddNewSnoc(acc, ks[1..], k);
      } else {
        AddNewSnoc(acc + [ks[0]], ks[1..], k);
      }
    }
  }

  /**
   * `_extra_field_names`: every extra column name across the students, each
   * once, in the order the names first appear.
   */
  function ExtraFieldNames(students: seq<Student>): (r: seq<string>)
    ensures Assoc.Distinct(r)
  {
    if |students| == 0 then []
    else
      var n := |students| - 1;
      AddNew(ExtraFieldNames(students[..n]), Assoc.Keys(students[n].extra))
  }

  /** A name is collected exactly when some student has a column of that name. */
  lemma {:induction false} ExtraFieldNamesMembers(students: seq<Student>)
    ensures forall k :: k in ExtraFieldNames(students) <==>
      exists i :: 0 <= i < |students| && k in Assoc.Keys(students[i].extra)
    decreases |students|
  {
    if |students| > 0 {
      var n := |students| - 1;
      ExtraFieldNamesMembers(students[..n]);
      assert forall i :: 0 <= i < n ==> students[..n][i] == students[i];
    }
  }

  /** Later students only append names: the names of a prefix of the roster are a prefix of the names. */
  lemma {:induction false} ExtraFieldNamesPrefix(students: seq<Student>, m: nat)
    requires m <= |students|
    ensures var all := ExtraFieldNames(students);
      var part := ExtraFieldNames(students[..m]);
      |part| <= |all| && all[..|part|] == part
    decreases |students|
  {
    if m < |students| {
      var n := |students| - 1;
      ExtraFieldNamesPrefix(students[..n], m);
      assert students[..n][..m] == students[..m];
      ExtraFieldNamesLast(students);
      PrefixTrans(ExtraFieldNames(students[..m]), ExtraFieldNames(students[..n]), ExtraFieldNames(students));
    } else {
      assert students[..m] == students;
    }
  }

  /** The last student only appends to the names of the students before. */
  lemma ExtraFieldNamesLast(students: seq<Student>)
    requires |students| > 0
    ensures var mid := ExtraFieldNames(students[..|students| - 1]);
      |mid| <= |ExtraFieldNames(students)| && ExtraFieldNames(students)[..|mid|] == mid
  {
    var n := |students| - 1;
    assert ExtraFieldNames(students) == AddNew(ExtraFieldNames(students[..n]), Assoc.Keys(students[n].extra));
  }

  lemma PrefixTrans<T>(a: seq<T>, b: seq<T>, c: seq<T>)
    requires |a| <= |b| && b[..|a|] == a
    requires |b| <= |c| && c[..|b|] == b
    ensures |a| <= |c| && c[..|a|] == a
  {
    assert c[..|a|] == c[..|b|][..|a|];
  }
}

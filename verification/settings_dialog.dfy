/**
 * The settings dialog: the grading-scheme tree editor (move, delete, add)
 * and the values the dialog hands back — the scheme read off the tree, the
 * export template and the grading settings.
 */
module SettingsDialog {
  import opened Wrappers
  import opened Models
  import Text
  import DataStore

  /** A subquestion row: its name and its points column, as typed. */
  datatype SubItem = SubItem(name: string, points: string)

  /** An exercise row and its subquestion rows. */
  datatype ExerciseItem = ExerciseItem(name: string, subs: seq<SubItem>)

  /** The tree's current item: an exercise, or subquestion `j` of exercise `i`. */
  datatype Selection = TopLevel(i: nat) | Child(i: nat, j: nat)

  datatype Editor = Editor(tree: seq<ExerciseItem>, current: Option<Selection>)

  predicate ValidSelection(tree: seq<ExerciseItem>, s: Selection) {
    match s
    case TopLevel(i) => i < |tree|
    case Child(i, j) => i < |tree| && j < |tree[i].subs|
  }

  /** The item a valid selection points at. */
  function ItemAt(tree: seq<ExerciseItem>, s: Selection): Either
    requires ValidSelection(tree, s)
  {
    match s
    case TopLevel(i) => ExerciseRow(tree[i])
    case Child(i, j) => SubRow(tree[i].subs[j])
  }

  datatype Either = ExerciseRow(e: ExerciseItem) | SubRow(s: SubItem)

  /** `xs` with the entries at `i` and `j` exchanged. */
  function Swap<T>(xs: seq<T>, i: nat, j: nat): (r: seq<T>)
    requires i < |xs| && j < |xs|
    ensures |r| == |xs| && r[i] == xs[j] && r[j] == xs[i]
    ensures forall k :: 0 <= k < |xs| && k != i && k != j ==> r[k] == xs[k]
  {
    xs[i := xs[j]][j := xs[i]]
  }

  /** Exchanging two entries keeps the same entries. */
  lemma SwapPermutes<T>(xs: seq<T>, i: nat, j: nat)
    requires i < |xs| && j < |xs|
    ensures multiset(Swap(xs, i, j)) == multiset(xs)
  {
    var m := xs[i := xs[j]];
    assert multiset(m) == multiset(xs) - multiset{xs[i]} + multiset{xs[j]};
    assert multiset(m[j := xs[i]]) == multiset(m) - multiset{m[j]} + multiset{xs[i]};
  }

  /**
   * `_on_move_up`: the current item changes place with the one above it,
   * among its siblings, and stays current; at the top, or with nothing
   * selected, nothing changes.
   */
  function MoveUp(e: Editor): (r: Editor)
    ensures e.current.Some? && ValidSelection(e.tree, e.current.value) ==>
      r.current.Some? && ValidSelection(r.tree, r.current.value)
      && ItemAt(r.tree, r.current.value) == ItemAt(e.tree, e.current.value)
  {
    match e.current
    case None => e
    case Some(TopLevel(i)) =>
      if 0 < i < |e.tree| then Editor(Swap(e.tree, i - 1, i), Some(TopLevel(i - 1))) else e
    case Some(Child(i, j)) =>
      if i < |e.tree| && 0 < j < |e.tree[i].subs| then
        Editor(e.tree[i := e.tree[i].(subs := Swap(e.tree[i].subs, j - 1, j))], Some(Child(i, j - 1)))
      else e
  }

  /** `_on_move_down`: the mirror image, moving below the next sibling while there is one. */
  function MoveDown(e: Editor): (r: Editor)
    ensures e.current.Some? && ValidSelection(e.tree, e.current.value) ==>
      r.current.Some? && ValidSelection(r.tree, r.current.value)
      && ItemAt(r.tree, r.current.value) == ItemAt(e.tree, e.current.value)
  {
    match e.current
    case None => e
    case Some(TopLevel(i)) =>
      if i + 1 < |e.tree| then Editor(Swap(e.tree, i, i + 1), Some(TopLevel(i + 1))) else e
    case Some(Child(i, j)) =>
      if i < |e.tree| && j + 1 < |e.tree[i].subs| then
        Editor(e.tree[i := e.tree[i].(subs := Swap(e.tree[i].subs, j, j + 1))], Some(Child(i, j + 1)))
      else e
  }

  /** The index of the selected item among its siblings, and how many siblings there are. */
  function Position(e: Editor): (nat, nat)
    requires e.current.Some? && ValidSelection(e.tree, e.current.value)
  {
    match e.current.value
    case TopLevel(i) => (i, |e.tree|)
    case Child(i, j) => (j, |e.tree[i].subs|)
  }

  /**
   * Moving up does something exactly when the selected item has a sibling
   * above it, and then moving down undoes it; likewise the other way round.
   */
  lemma MoveUpDownInverse(e: Editor)
    requires e.current.Some? && ValidSelection(e.tree, e.current.value)
    ensures MoveUp(e) == e <==> Position(e).0 == 0
    ensures MoveDown(e) == e <==> Position(e).0 + 1 == Position(e).1
    ensures Position(e).0 > 0 ==> MoveDown(MoveUp(e)) == e
    ensures Position(e).0 + 1 < Position(e).1 ==> MoveUp(MoveDown(e)) == e
  {
    match e.current.value
    case TopLevel(i) =>
      if i > 0 {
        assert Swap(Swap(e.tree, i - 1, i), i - 1, i) == e.tree;
      }
      if i + 1 < |e.tree| {
        assert Swap(Swap(e.tree, i, i + 1), i, i + 1) == e.tree;
      }
    case Child(i, j) =>
      var subs := e.tree[i].subs;
      if j > 0 {
        assert Swap(Swap(subs, j - 1, j), j - 1, j) == subs;
        assert e.tree[i := e.tree[i].(subs := subs)] == e.tree;
      }
      if j + 1 < |subs| {
        assert Swap(Swap(subs, j, j + 1), j, j + 1) == subs;
        assert e.tree[i := e.tree[i].(subs := subs)] == e.tree;
      }
  }

  /**
   * A move only reorders: the exercises keep the same multiset, and moving
   * a subquestion keeps its exercise's subquestions as a multiset and every
   * other exercise untouched.
   */
  lemma MoveUpPermutes(e: Editor)
    requires e.current.Some? && ValidSelection(e.tree, e.current.value)
    ensures |MoveUp(e).tree| == |e.tree|
    ensures e.current.value.TopLevel? ==> multiset(MoveUp(e).tree) == multiset(e.tree)
    ensures e.current.value.Child? ==>
      var i := e.current.value.i;
      multiset(MoveUp(e).tree[i].subs) == multiset(e.tree[i].subs)
      && MoveUp(e).tree[i].name == e.tree[i].name
      && forall k :: 0 <= k < |e.tree| && k != i ==> MoveUp(e).tree[k] == e.tree[k]
  {
    match e.current.value
    case TopLevel(i) =>
      if i > 0 {
        assert MoveUp(e).tree == Swap(e.tree, i - 1, i);
        SwapPermutes(e.tree, i - 1, i);
      }
    case Child(i, j) =>
      if j > 0 {
        var subs := Swap(e.tree[i].subs, j - 1, j);
        assert MoveUp(e).tree == e.tree[i := e.tree[i].(subs := subs)];
        SwapPermutes(e.tree[i].subs, j - 1, j);
        ReplaceSubs(e.tree, i, subs);
      }
  }

  /** The same for moving down. */
  lemma MoveDownPermutes(e: Editor)
    requires e.current.Some? && ValidSelection(e.tree, e.current.value)
    ensures |MoveDown(e).tree| == |e.tree|
    ensures e.current.value.TopLevel? ==> multiset(MoveDown(e).tree) == multiset(e.tree)
    ensures e.current.value.Child? ==>
      var i := e.current.value.i;
      multiset(MoveDown(e).tree[i].subs) == multiset(e.tree[i].subs)
      && MoveDown(e).tree[i].name == e.tree[i].name
      && forall k :: 0 <= k < |e.tree| && k != i ==> MoveDown(e).tree[k] == e.tree[k]
  {
    match e.current.value
    case TopLevel(i) =>
      if i + 1 < |e.tree| {
        assert MoveDown(e).tree == Swap(e.tree, i, i + 1);
        SwapPermutes(e.tree, i, i + 1);
      }
    case Child(i, j) =>
      if j + 1 < |e.tree[i].subs| {
        var subs := Swap(e.tree[i].subs, j, j + 1);
        assert MoveDown(e).tree == e.tree[i := e.tree[i].(subs := subs)];
        SwapPermutes(e.tree[i].subs, j, j + 1);
        ReplaceSubs(e.tree, i, subs);
      }
  }

  /** Giving one exercise a permutation of its subquestions keeps its name and every other exercise. */
  lemma ReplaceSubs(tree: seq<ExerciseItem>, i: nat, subs: seq<SubItem>)
    requires i < |tree| && multiset(subs) == multiset(tree[i].subs)
    ensures var t := tree[i := tree[i].(subs := subs)];
      |t| == |tree| && multiset(t[i].subs) == multiset(tree[i].subs) && t[i].name == tree[i].name
      && forall k :: 0 <= k < |tree| && k != i ==> t[k] == tree[k]
  {
  }

  /**
   * `_on_delete`: a selected subquestion is removed from its exercise; a
   * selected exercise is removed with all its subquestions, except that one
   * with subquestions stays unless the user confirms.
   */
  function Delete(e: Editor, confirmed: bool): (r: seq<ExerciseItem>)
    ensures e.current.Some? && e.current.value.TopLevel? && e.current.value.i < |e.tree| ==>
      var i := e.current.value.i;
      if |e.tree[i].subs| > 0 && !confirmed then r == e.tree
      else |r| == |e.tree| - 1 && r[..i] == e.tree[..i] && r[i..] == e.tree[i + 1..]
    ensures e.current.Some? && e.current.value.Child? && ValidSelection(e.tree, e.current.value) ==>
      var (i, j) := (e.current.value.i, e.current.value.j);
      |r| == |e.tree| && r[i].name == e.tree[i].name
      && |r[i].subs| == |e.tree[i].subs| - 1
      && r[i].subs[..j] == e.tree[i].subs[..j] && r[i].subs[j..] == e.tree[i].subs[j + 1..]
      && forall k :: 0 <= k < |e.tree| && k != i ==> r[k] == e.tree[k]
    ensures e.current.None? ==> r == e.tree
  {
    match e.current
    case None => e.tree
    case Some(TopLevel(i)) =>
      if i >= |e.tree| || (|e.tree[i].subs| > 0 && !confirmed) then e.tree
      else e.tree[..i] + e.tree[i + 1..]
    case Some(Child(i, j)) =>
      if ValidSelection(e.tree, Child(i, j)) then
        var subs := e.tree[i].subs;
        e.tree[i := e.tree[i].(subs := subs[..j] + subs[j + 1..])]
      else e.tree
  }

  /** `_on_add_exercise`: a new empty exercise at the end, made current. */
  function AddExercise(e: Editor): (r: Editor)
    ensures |r.tree| == |e.tree| + 1 && r.tree[..|e.tree|] == e.tree
    ensures r.current == Some(TopLevel(|e.tree|)) && ItemAt(r.tree, r.current.value) == ExerciseRow(ExerciseItem("New Exercise", []))
  {
    Editor(e.tree + [ExerciseItem("New Exercise", [])], Some(TopLevel(|e.tree|)))
  }

  /** The exercise a new subquestion goes into: the selected one (or the selected subquestion's), else the last. */
  function TargetExercise(e: Editor): Option<nat> {
    match e.current
    case Some(TopLevel(i)) => if i < |e.tree| then Some(i) else None
    case Some(Child(i, _)) => if i < |e.tree| then Some(i) else None
    case None => if |e.tree| == 0 then None else Some(|e.tree| - 1)
  }

  /**
   * `_on_add_subquestion`: a subquestion "new" worth 1.0 at the end of the
   * target exercise, made current; with no exercise at all nothing changes.
   */
  function AddSubquestion(e: Editor): (r: Editor)
    ensures TargetExercise(e).None? ==> r == e
    ensures TargetExercise(e).Some? ==>
      var i := TargetExercise(e).value;
      |r.tree| == |e.tree| && r.tree[i].subs == e.tree[i].subs + [SubItem("new", "1.0")]
      && r.tree[i].name == e.tree[i].name
      && (forall k :: 0 <= k < |e.tree| && k != i ==> r.tree[k] == e.tree[k])
      && r.current == Some(Child(i, |e.tree[i].subs|))
  {
    match TargetExercise(e)
    case None => e
    case Some(i) =>
      Editor(e.tree[i := e.tree[i].(subs := e.tree[i].subs + [SubItem("new", "1.0")])], Some(Child(i, |e.tree[i].subs|)))
  }

  // ---------------------------------------------------------------------
  // Reading the dialog back
  // ---------------------------------------------------------------------

  /** `f"Exercise {i + 1}"`. */
  function DefaultExerciseName(i: nat): string {
    "Exercise " + Text.NatToString(i + 1)
  }

  /** `f"q{i + 1}.{j + 1}"`. */
  function DefaultSubquestionName(i: nat, j: nat): string {
    "q" + Text.NatToString(i + 1) + "." + Text.NatToString(j + 1)
  }

  /** The stripped text, or the fallback when nothing is left. */
  function NameOr(text: string, fallback: string): string {
    if Text.Strip(text) == "" then fallback else Text.Strip(text)
  }

  function ReadSubquestion(i: nat, j: nat, s: SubItem): Subquestion {
    Subquestion(NameOr(s.name, DefaultSubquestionName(i, j)), Text.ParseFloat(s.points).GetOr(1.0))
  }

  function ReadExercise(i: nat, x: ExerciseItem): (r: Exercise)
    ensures |r.subquestions| == |x.subs|
    ensures forall j :: 0 <= j < |x.subs| ==> r.subquestions[j] == ReadSubquestion(i, j, x.subs[j])
  {
    Exercise(NameOr(x.name, DefaultExerciseName(i)),
             seq(|x.subs|, j requires 0 <= j < |x.subs| => ReadSubquestion(i, j, x.subs[j])))
  }

  /**
   * `get_grading_scheme`: the tree read row by row; a blank exercise name
   * becomes "Exercise {i+1}", a blank subquestion name "q{i+1}.{j+1}", and
   * points that do not read as a number become 1.0.
   */
  function GetGradingScheme(tree: seq<ExerciseItem>): (r: GradingScheme)
    ensures |r.exercises| == |tree|
    ensures forall i :: 0 <= i < |tree| ==> r.exercises[i] == ReadExercise(i, tree[i])
  {
    GradingScheme(seq(|tree|, i requires 0 <= i < |tree| => ReadExercise(i, tree[i])))
  }

  /** What one subquestion row reads as: its stripped name or the default, its points or 1.0. */
  lemma ReadSubquestionDefaults(i: nat, j: nat, s: SubItem)
    ensures Text.Strip(s.name) != "" ==> ReadSubquestion(i, j, s).name == Text.Strip(s.name)
    ensures Text.Strip(s.name) == "" ==> ReadSubquestion(i, j, s).name == DefaultSubquestionName(i, j)
    ensures ReadSubquestion(i, j, s).name != ""
    ensures Text.ParseFloat(s.points).None? ==> ReadSubquestion(i, j, s).maxPoints == 1.0
    ensures Text.ParseFloat(s.points).Some? ==> ReadSubquestion(i, j, s).maxPoints == Text.ParseFloat(s.points).value
  {
  }

  /** Every exercise and subquestion read from the tree has a non-blank name. */
  lemma GetGradingSchemeNamed(tree: seq<ExerciseItem>, i: nat, j: nat)
    requires i < |tree| && j < |tree[i].subs|
    ensures GetGradingScheme(tree).exercises[i].name != ""
    ensures Text.Strip(tree[i].name) == "" ==> GetGradingScheme(tree).exercises[i].name == DefaultExerciseName(i)
    ensures GetGradingScheme(tree).exercises[i].subquestions[j].name != ""
  {
  }

  /** A tree whose rows all carry names of their own. */
  predicate Named(tree: seq<ExerciseItem>) {
    forall i :: 0 <= i < |tree| ==>
      Text.Strip(tree[i].name) != ""
      && forall j :: 0 <= j < |tree[i].subs| ==> Text.Strip(tree[i].subs[j].name) != ""
  }

  /** A row with a name of its own reads the same wherever it stands. */
  lemma ReadExerciseAnywhere(x: ExerciseItem, i: nat, k: nat)
    requires Text.Strip(x.name) != ""
    requires forall j :: 0 <= j < |x.subs| ==> Text.Strip(x.subs[j].name) != ""
    ensures ReadExercise(i, x) == ReadExercise(k, x)
  {
    assert ReadExercise(i, x).subquestions == ReadExercise(k, x).subquestions;
  }

  /**
   * With every row named, moving an exercise up only exchanges the two
   * exercises in the scheme the dialog returns.
   */
  lemma MoveUpReordersScheme(e: Editor)
    requires Named(e.tree)
    requires e.current.Some? && e.current.value.TopLevel? && 0 < e.current.value.i < |e.tree|
    ensures GetGradingScheme(MoveUp(e).tree).exercises ==
      Swap(GetGradingScheme(e.tree).exercises, e.current.value.i - 1, e.current.value.i)
  {
    var i := e.current.value.i;
    assert MoveUp(e).tree == Swap(e.tree, i - 1, i);
    SwapScheme(e.tree, i);
  }

  lemma SwapScheme(tree: seq<ExerciseItem>, i: nat)
    requires Named(tree) && 0 < i < |tree|
    ensures GetGradingScheme(Swap(tree, i - 1, i)).exercises == Swap(GetGradingScheme(tree).exercises, i - 1, i)
  {
    ReadExerciseAnywhere(tree[i], i - 1, i);
    ReadExerciseAnywhere(tree[i - 1], i, i - 1);
    SwapSchemeOf(tree, i);
  }

  /** Exchanging two rows that read the same at either position exchanges their exercises. */
  lemma SwapSchemeOf(tree: seq<ExerciseItem>, i: nat)
    requires 0 < i < |tree|
    requires ReadExercise(i - 1, tree[i]) == ReadExercise(i, tree[i])
    requires ReadExercise(i, tree[i - 1]) == ReadExercise(i - 1, tree[i - 1])
    ensures GetGradingScheme(Swap(tree, i - 1, i)).exercises == Swap(GetGradingScheme(tree).exercises, i - 1, i)
  {
    var t := Swap(tree, i - 1, i);
    var s := GetGradingScheme(tree).exercises;
    var a := GetGradingScheme(t).exercises;
    var b := Swap(s, i - 1, i);
    forall k | 0 <= k < |a|
      ensures a[k] == b[k]
    {
      assert a[k] == ReadExercise(k, t[k]);
      if k == i - 1 {
        assert t[k] == tree[i] && b[k] == s[i];
      } else if k == i {
        assert t[k] == tree[i - 1] && b[k] == s[i - 1];
      } else {
        assert t[k] == tree[k] && b[k] == s[k];
      }
    }
    SameEntries(a, b);
  }

  lemma SameEntries<T>(a: seq<T>, b: seq<T>)
    requires |a| == |b| && forall k :: 0 <= k < |a| ==> a[k] == b[k]
    ensures a == b
  {
  }

  /** The default template has no surrounding whitespace. */
  lemma DefaultTemplateStripped()
    ensures DataStore.DefaultTemplate != "" && Text.Strip(DataStore.DefaultTemplate) == DataStore.DefaultTemplate
  {
    var d := DataStore.DefaultTemplate;
    assert d[0] == '{' && d[|d| - 1] == 'd';
    Text.StripNoSpaceEnds(d);
  }

  /** `get_export_template`: the stripped text, or the default template when it is blank. */
  function GetExportTemplate(text: string): (r: string)
    ensures r != ""
    ensures Text.Strip(r) == r
    ensures Text.Strip(text) != "" ==> r == Text.Strip(text)
  {
    var stripped := Text.Strip(text);
    Text.StripIdempotent(text);
    DefaultTemplateStripped();
    if stripped == "" then DataStore.DefaultTemplate else stripped
  }

  /** Reading the template back from its own text gives the same template. */
  lemma GetExportTemplateIdempotent(text: string)
    ensures GetExportTemplate(GetExportTemplate(text)) == GetExportTemplate(text)
  {
  }

  /**
   * `get_settings`: the four values the dialog edits, over the defaults of
   * the other fields; the score total is absent exactly when the automatic
   * box is ticked.
   */
  function GetSettings(maxNote: real, rounding: real, automatic: bool, scoreTotal: real, debug: bool): (r: GradingSettings)
    ensures r.scoreTotal.None? <==> automatic
    ensures !automatic ==> r.scoreTotal == Some(scoreTotal)
    ensures r.maxNote == maxNote && r.rounding == rounding && r.debugMode == debug
    ensures r.coverPageDetail == DataStore.DefaultSettings.coverPageDetail && r.hiDpr == DataStore.DefaultSettings.hiDpr
    ensures r.gradingSeparateWindow == DataStore.DefaultSettings.gradingSeparateWindow
    ensures r.showExtraFields == DataStore.DefaultSettings.showExtraFields
  {
    DataStore.DefaultSettings.(maxNote := maxNote, rounding := rounding,
                               scoreTotal := if automatic then None else Some(scoreTotal), debugMode := debug)
  }
}

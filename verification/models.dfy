/**
 * The application's records: students, annotations, the grading scheme and
 * per-student grades, together with the scheme and grade arithmetic.
 */
module Models {
  import opened Wrappers
  import opened Numeric
  import Assoc

  /** A roster row; `extra` keeps the additional CSV columns in column order. */
  datatype Student = Student(number: string, last: string, first: string, extra: seq<(string, string)>)

  /**
   * One mark on an exam page.  `x`, `y` are fractions of the page size; `x2`,
   * `y2` are the second point of a line, arrow or rectcross, or the edge point
   * of a circle; `width` is a text box width as a fraction of the page width.
   */
  datatype Annotation = Annotation(
    page: int,
    kind: string,
    x: real,
    y: real,
    text: Option<string>,
    x2: Option<real>,
    y2: Option<real>,
    width: Option<real>)

  /** An annotation that has only a position, as stamps and plain marks do. */
  function PointAnnotation(page: int, kind: string, x: real, y: real): (a: Annotation)
    ensures a.page == page && a.kind == kind && a.x == x && a.y == y
    ensures a.text.None? && a.x2.None? && a.y2.None? && a.width.None?
  {
    Annotation(page, kind, x, y, None, None, None, None)
  }

  datatype Subquestion = Subquestion(name: string, maxPoints: real)

  datatype Exercise = Exercise(name: string, subquestions: seq<Subquestion>)

  datatype GradingScheme = GradingScheme(exercises: seq<Exercise>)

  /** A student's scores by subquestion name; a score may be absent (`None`). */
  datatype Grade = Grade(studentNumber: string, scores: seq<(string, Option<real>)>)

  datatype GradingSettings = GradingSettings(
    maxNote: real,
    rounding: real,
    scoreTotal: Option<real>,
    debugMode: bool,
    coverPageDetail: bool,
    hiDpr: bool,
    gradingSeparateWindow: bool,
    showExtraFields: bool)

  /** The (exercise name, subquestion) pairs of one exercise. */
  function ExercisePairs(ex: Exercise): (r: seq<(string, Subquestion)>)
    ensures |r| == |ex.subquestions|
    ensures forall j :: 0 <= j < |r| ==> r[j] == (ex.name, ex.subquestions[j])
  {
    seq(|ex.subquestions|, j requires 0 <= j < |ex.subquestions| => (ex.name, ex.subquestions[j]))
  }

  function Flatten(exs: seq<Exercise>): seq<(string, Subquestion)> {
    if |exs| == 0 then [] else ExercisePairs(exs[0]) + Flatten(exs[1..])
  }

  /** How many subquestions the exercises before position `i` hold. */
  function Offset(exs: seq<Exercise>, i: nat): nat
    requires i <= |exs|
  {
    if i == 0 then 0 else Offset(exs, i - 1) + |exs[i - 1].subquestions|
  }

  /** `GradingScheme.all_subquestions`: every subquestion, tagged with its exercise. */
  function AllSubquestions(s: GradingScheme): seq<(string, Subquestion)> {
    Flatten(s.exercises)
  }

  lemma {:induction false} FlattenAppend(a: seq<Exercise>, b: seq<Exercise>)
    ensures Flatten(a + b) == Flatten(a) + Flatten(b)
  {
    if |a| > 0 {
      assert (a + b)[0] == a[0];
      assert (a + b)[1..] == a[1..] + b;
      FlattenAppend(a[1..], b);
      calc {
        Flatten(a + b);
        ExercisePairs(a[0]) + Flatten(a[1..] + b);
        ExercisePairs(a[0]) + (Flatten(a[1..]) + Flatten(b));
      }
    } else {
      assert a + b == b;
    }
  }

  lemma {:induction false} FlattenLength(exs: seq<Exercise>)
    ensures |Flatten(exs)| == Offset(exs, |exs|)
    decreases |exs|
  {
    if |exs| > 0 {
      var n := |exs| - 1;
      assert exs == exs[..n] + [exs[n]];
      FlattenAppend(exs[..n], [exs[n]]);
      assert Flatten([exs[n]]) == ExercisePairs(exs[n]) + Flatten([]);
      FlattenLength(exs[..n]);
      OffsetPrefix(exs, n);
    }
  }

  lemma {:induction false} OffsetPrefix(exs: seq<Exercise>, i: nat)
    requires i <= |exs|
    ensures Offset(exs[..i], i) == Offset(exs, i)
    decreases i
  {
    if i > 0 {
      assert exs[..i][..i - 1] == exs[..i - 1];
      OffsetPrefix(exs[..i], i - 1);
      OffsetPrefix(exs, i - 1);
    }
  }

  /**
   * `all_subquestions` lists exercise by exercise, and within an exercise
   * subquestion by subquestion: subquestion `j` of exercise `i` sits at
   * position `Offset(i) + j`, and the list has no other entries.
   */
  lemma {:induction false} AllSubquestionsOrder(s: GradingScheme, i: nat, j: nat)
    requires i < |s.exercises| && j < |s.exercises[i].subquestions|
    ensures |AllSubquestions(s)| == Offset(s.exercises, |s.exercises|)
    ensures Offset(s.exercises, i) + j < |AllSubquestions(s)|
    ensures AllSubquestions(s)[Offset(s.exercises, i) + j] == (s.exercises[i].name, s.exercises[i].subquestions[j])
  {
    var exs := s.exercises;
    FlattenLength(exs);
    FlattenAppend(exs[..i], exs[i..]);
    assert exs == exs[..i] + exs[i..];
    FlattenLength(exs[..i]);
    OffsetPrefix(exs, i);
    assert Flatten(exs[i..]) == ExercisePairs(exs[i]) + Flatten(exs[i + 1..]) by {
      assert exs[i..][1..] == exs[i + 1..];
    }
    OffsetMonotone(exs, i + 1, |exs|);
  }

  lemma {:induction false} OffsetMonotone(exs: seq<Exercise>, i: nat, k: nat)
    requires i <= k <= |exs|
    ensures Offset(exs, i) <= Offset(exs, k)
    decreases k - i
  {
    if i < k {
      OffsetMonotone(exs, i, k - 1);
    }
  }

  /** The nested loops of `all_subquestions`, building the same list. */
  method AllSubquestionsLoop(s: GradingScheme) returns (result: seq<(string, Subquestion)>)
    ensures result == AllSubquestions(s)
  {
    var exs := s.exercises;
    result := [];
    var i := 0;
    while i < |exs|
      invariant 0 <= i <= |exs|
      invariant result == Flatten(exs[..i])
    {
      FlattenSnoc(exs, i);
      result := AppendPairs(result, exs[i]);
      i := i + 1;
    }
    assert exs[..i] == exs;
  }

  lemma FlattenSnoc(exs: seq<Exercise>, i: nat)
    requires i < |exs|
    ensures Flatten(exs[..i + 1]) == Flatten(exs[..i]) + ExercisePairs(exs[i])
  {
    assert exs[..i + 1] == exs[..i] + [exs[i]];
    FlattenAppend(exs[..i], [exs[i]]);
    assert Flatten([exs[i]]) == ExercisePairs(exs[i]) + Flatten([]);
  }

  /** The inner loop of `all_subquestions`: append one exercise's pairs. */
  method AppendPairs(acc: seq<(string, Subquestion)>, ex: Exercise) returns (result: seq<(string, Subquestion)>)
    ensures result == acc + ExercisePairs(ex)
  {
    result := acc;
    var j := 0;
    while j < |ex.subquestions|
      invariant 0 <= j <= |ex.subquestions|
      invariant result == acc + ExercisePairs(ex)[..j]
    {
      assert ExercisePairs(ex)[..j + 1] == ExercisePairs(ex)[..j] + [(ex.name, ex.subquestions[j])];
      result := result + [(ex.name, ex.subquestions[j])];
      j := j + 1;
    }
    assert ExercisePairs(ex)[..j] == ExercisePairs(ex);
  }

  function SumPoints(pairs: seq<(string, Subquestion)>): real {
    if |pairs| == 0 then 0.0 else pairs[0].1.maxPoints + SumPoints(pairs[1..])
  }

  function ExerciseMax(ex: Exercise): real {
    SumPoints(ExercisePairs(ex))
  }

  /** `GradingScheme.max_total`: the sum of every subquestion's maximum. */
  function MaxTotal(s: GradingScheme): real {
    SumPoints(AllSubquestions(s))
  }

  function SumExerciseMax(exs: seq<Exercise>): real {
    if |exs| == 0 then 0.0 else ExerciseMax(exs[0]) + SumExerciseMax(exs[1..])
  }

  lemma {:induction false} SumPointsAppend(a: seq<(string, Subquestion)>, b: seq<(string, Subquestion)>)
    ensures SumPoints(a + b) == SumPoints(a) + SumPoints(b)
  {
    if |a| > 0 {
      assert (a + b)[0] == a[0];
      assert (a + b)[1..] == a[1..] + b;
      SumPointsAppend(a[1..], b);
    } else {
      assert a + b == b;
    }
  }

  /** The scheme's maximum is the sum of the exercises' maxima. */
  lemma {:induction false} MaxTotalByExercise(s: GradingScheme)
    ensures MaxTotal(s) == SumExerciseMax(s.exercises)
  {
    FlattenSum(s.exercises);
  }

  lemma {:induction false} FlattenSum(exs: seq<Exercise>)
    ensures SumPoints(Flatten(exs)) == SumExerciseMax(exs)
  {
    if |exs| > 0 {
      SumPointsAppend(ExercisePairs(exs[0]), Flatten(exs[1..]));
      FlattenSum(exs[1..]);
    }
  }

  /** With non-negative maxima the scheme's maximum is non-negative. */
  lemma {:induction false} MaxTotalNonNegative(s: GradingScheme)
    requires forall p :: p in AllSubquestions(s) ==> p.1.maxPoints >= 0.0
    ensures MaxTotal(s) >= 0.0
  {
    SumPointsNonNegative(AllSubquestions(s));
  }

  lemma {:induction false} SumPointsNonNegative(pairs: seq<(string, Subquestion)>)
    requires forall p :: p in pairs ==> p.1.maxPoints >= 0.0
    ensures SumPoints(pairs) >= 0.0
  {
    if |pairs| > 0 {
      assert pairs[0] in pairs;
      assert forall p :: p in pairs[1..] ==> p in pairs;
      SumPointsNonNegative(pairs[1..]);
    }
  }

  function ScoreValue(v: Option<real>): real {
    if v.Some? then v.value else 0.0
  }

  /** `Grade.total`: the sum of the scores that are present. */
  function Total(scores: seq<(string, Option<real>)>): real {
    if |scores| == 0 then 0.0 else ScoreValue(scores[0].1) + Total(scores[1..])
  }

  /**
   * Setting one score moves the total by exactly the difference between the
   * new and the old value of that subquestion.
   */
  lemma {:induction false} TotalPut(scores: seq<(string, Option<real>)>, name: string, v: Option<real>)
    ensures Total(Assoc.Put(scores, name, v)) == Total(scores) - ScoreValue(Assoc.Get(scores, name).GetOr(None)) + ScoreValue(v)
  {
    if |scores| > 0 && scores[0].0 != name {
      TotalPut(scores[1..], name, v);
      assert ([scores[0]] + Assoc.Put(scores[1..], name, v))[1..] == Assoc.Put(scores[1..], name, v);
    }
  }

  /** Removing a score moves the total by exactly that score. */
  lemma {:induction false} TotalRemove(scores: seq<(string, Option<real>)>, name: string)
    ensures Total(Assoc.Remove(scores, name)) == Total(scores) - ScoreValue(Assoc.Get(scores, name).GetOr(None))
  {
    if |scores| > 0 && scores[0].0 != name {
      TotalRemove(scores[1..], name);
      assert ([scores[0]] + Assoc.Remove(scores[1..], name))[1..] == Assoc.Remove(scores[1..], name);
    }
  }

  /** Non-negative scores give a non-negative total; absent ones count as zero. */
  lemma {:induction false} TotalNonNegative(scores: seq<(string, Option<real>)>)
    requires forall k :: 0 <= k < |scores| ==> ScoreValue(scores[k].1) >= 0.0
    ensures Total(scores) >= 0.0
  {
    if |scores| > 0 {
      TotalNonNegative(scores[1..]);
    }
  }

  /** Python's `round(v, 2)` on an exact value. */
  function Round2(v: real): (r: real)
    ensures -0.005 <= r - v <= 0.005
  {
    RoundHalfEven(v * 100.0) as real / 100.0
  }

  /**
   * `Grade.grade_out_of_20`: the total scaled to 20 and rounded to two
   * decimals, or 0 when the scheme has no points at all.
   */
  function GradeOutOf20(g: Grade, maxTotal: real): (r: real)
    ensures maxTotal == 0.0 ==> r == 0.0
    ensures maxTotal != 0.0 ==> -0.005 <= r - Total(g.scores) / maxTotal * 20.0 <= 0.005
  {
    if maxTotal == 0.0 then 0.0 else Round2(Total(g.scores) / maxTotal * 20.0)
  }

  /** A total within the scheme's maximum gives a mark within 0..20. */
  lemma GradeOutOf20Bounds(g: Grade, maxTotal: real)
    requires 0.0 <= Total(g.scores) <= maxTotal
    ensures 0.0 <= GradeOutOf20(g, maxTotal) <= 20.0
  {
    if maxTotal != 0.0 {
      var v := Total(g.scores) / maxTotal * 20.0;
      assert 0.0 <= v <= 20.0 by {
        assert Total(g.scores) / maxTotal <= 1.0;
      }
      var n := RoundHalfEven(v * 100.0);
      assert 0 <= n <= 2000;
    }
  }
}

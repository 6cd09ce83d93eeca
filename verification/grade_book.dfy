/**
 * The session's grade book, `{student_number: {subquestion_name: points}}`,
 * shared by the grading panel and the main window, and the two edits they
 * make to it.
 */
module GradeBook {
  import opened Wrappers
  import Assoc

  type Scores = seq<(string, real)>

  type GradeMap = seq<(string, Scores)>

  /** `grades.get(sn, {}).get(sq)`. */
  function Score(g: GradeMap, sn: string, sq: string): Option<real> {
    match Assoc.Get(g, sn)
    case None => None
    case Some(m) => Assoc.Get(m, sq)
  }

  /** `grades.setdefault(sn, {})[sq] = v`, written out as the code does it. */
  function SetScore(g: GradeMap, sn: string, sq: string, v: real): GradeMap {
    Assoc.Put(g, sn, Assoc.Put(Assoc.Get(g, sn).GetOr([]), sq, v))
  }

  /**
   * Storing a score sets exactly that (student, subquestion) pair; every
   * other pair reads as before.
   */
  lemma SetScoreGet(g: GradeMap, sn: string, sq: string, v: real, sn': string, sq': string)
    ensures Score(SetScore(g, sn, sq, v), sn', sq') ==
      if sn' == sn && sq' == sq then Some(v) else Score(g, sn', sq')
  {
    var m := Assoc.Get(g, sn).GetOr([]);
    Assoc.PutGet(g, sn, Assoc.Put(m, sq, v), sn');
    Assoc.PutGet(m, sq, v, sq');
  }

  /** `SetScoreGet` for every pair at once. */
  lemma SetScoreGetAll(g: GradeMap, sn: string, sq: string, v: real)
    ensures Score(SetScore(g, sn, sq, v), sn, sq) == Some(v)
    ensures forall sn', sq' :: (sn', sq') != (sn, sq) ==> Score(SetScore(g, sn, sq, v), sn', sq') == Score(g, sn', sq')
  {
    SetScoreGet(g, sn, sq, v, sn, sq);
    forall sn', sq' | (sn', sq') != (sn, sq)
      ensures Score(SetScore(g, sn, sq, v), sn', sq') == Score(g, sn', sq')
    {
      SetScoreGet(g, sn, sq, v, sn', sq');
    }
  }

  /** A student without grades gets a new map at the end; existing students keep their place. */
  lemma SetScoreKeys(g: GradeMap, sn: string, sq: string, v: real)
    ensures sn in Assoc.Keys(g) ==> Assoc.Keys(SetScore(g, sn, sq, v)) == Assoc.Keys(g)
    ensures sn !in Assoc.Keys(g) ==> Assoc.Keys(SetScore(g, sn, sq, v)) == Assoc.Keys(g) + [sn]
  {
    Assoc.PutKeys(g, sn, Assoc.Put(Assoc.Get(g, sn).GetOr([]), sq, v));
  }

  /** `grades.get(sn, {}).pop(sq, None)`: a student with no grades is left alone. */
  function ClearScore(g: GradeMap, sn: string, sq: string): (r: GradeMap)
    ensures sn !in Assoc.Keys(g) ==> r == g
  {
    match Assoc.Get(g, sn)
    case None => g
    case Some(m) => Assoc.Put(g, sn, Assoc.Remove(m, sq))
  }

  /**
   * Clearing removes exactly that pair (the student's map holds each
   * subquestion once); every other pair reads as before and no student is
   * added or dropped.
   */
  lemma ClearScoreGet(g: GradeMap, sn: string, sq: string, sn': string, sq': string)
    requires Assoc.WellFormed(Assoc.Get(g, sn).GetOr([]))
    ensures Score(ClearScore(g, sn, sq), sn', sq') ==
      if sn' == sn && sq' == sq then None else Score(g, sn', sq')
    ensures Assoc.Keys(ClearScore(g, sn, sq)) == Assoc.Keys(g)
  {
    match Assoc.Get(g, sn)
    case None =>
    case Some(m) =>
      Assoc.PutGet(g, sn, Assoc.Remove(m, sq), sn');
      Assoc.PutKeys(g, sn, Assoc.Remove(m, sq));
      if sq' == sq {
        Assoc.RemoveGone(m, sq);
      } else {
        Assoc.RemoveGetOther(m, sq, sq');
      }
  }
}

/**
 * The main window's "export annotated PDFs" loop: per student, the output
 * file name built from the export template, and the batch's counting under
 * cancellation, missing sources and failing bakes.
 */
module ExportLoop {
  import opened Wrappers
  import Assoc
  import opened Models
  import Template
  import DataStore
  import Exporter

  /** `v or "EMPTY"`: the value a template sees for an empty field. */
  function OrEmpty(v: string): (r: string)
    ensures r != ""
    ensures v != "" ==> r == v
  {
    if v == "" then "EMPTY" else v
  }

  /** The extra columns with every empty value replaced by "EMPTY". */
  function ExtraValues(extra: seq<(string, string)>): (r: seq<(string, string)>)
    ensures |r| == |extra|
    ensures forall i :: 0 <= i < |extra| ==> r[i] == (extra[i].0, OrEmpty(extra[i].1))
  {
    if |extra| == 0 then [] else [(extra[0].0, OrEmpty(extra[0].1))] + ExtraValues(extra[1..])
  }

  /** Looking a key up among the adjusted extras finds the adjusted value of the same column. */
  lemma {:induction false} ExtraValuesGet(extra: seq<(string, string)>, key: string)
    ensures Assoc.Get(ExtraValues(extra), key) ==
      (match Assoc.Get(extra, key) case None => None case Some(v) => Some(OrEmpty(v)))
  {
    if |extra| > 0 {
      ExtraValuesGet(extra[1..], key);
      Assoc.GetCons(extra[0].0, OrEmpty(extra[0].1), ExtraValues(extra[1..]), key);
      assert ExtraValues(extra) == [(extra[0].0, OrEmpty(extra[0].1))] + ExtraValues(extra[1..]);
    }
  }

  /** The fields the template is filled from: the extras, then the three core fields over them. */
  function StemFields(s: Student): seq<(string, string)> {
    var extras := ExtraValues(s.extra);
    var withNumber := Assoc.Put(extras, "student_number", OrEmpty(s.number));
    var withLast := Assoc.Put(withNumber, "last_name", OrEmpty(s.last));
    Assoc.Put(withLast, "first_name", OrEmpty(s.first))
  }

  /** `_EmptyDefault`: a missing key reads as "EMPTY". */
  function Lookup(fields: seq<(string, string)>, key: string): string {
    Assoc.Get(fields, key).GetOr("EMPTY")
  }

  /**
   * What the template sees for a key: the core fields always come from the
   * student record, whatever the extra columns hold; any other key is its
   * extra column; every empty or missing value is "EMPTY".
   */
  lemma StemFieldsLookup(s: Student, key: string)
    ensures Lookup(StemFields(s), key) ==
      if key == "student_number" then OrEmpty(s.number)
      else if key == "last_name" then OrEmpty(s.last)
      else if key == "first_name" then OrEmpty(s.first)
      else match Assoc.Get(s.extra, key) case None => "EMPTY" case Some(v) => OrEmpty(v)
  {
    var extras := ExtraValues(s.extra);
    var withNumber := Assoc.Put(extras, "student_number", OrEmpty(s.number));
    var withLast := Assoc.Put(withNumber, "last_name", OrEmpty(s.last));
    Assoc.PutGet(withLast, "first_name", OrEmpty(s.first), key);
    Assoc.PutGet(withNumber, "last_name", OrEmpty(s.last), key);
    Assoc.PutGet(extras, "student_number", OrEmpty(s.number), key);
    ExtraValuesGet(s.extra, key);
  }

  /** No field the template can name is empty. */
  lemma LookupNeverEmpty(s: Student, key: string)
    ensures Lookup(StemFields(s), key) != ""
  {
    StemFieldsLookup(s, key);
  }

  /**
   * The file-name stem of one student: the template filled from the
   * student's fields, or `<number>_annotated` when the template raises
   * `ValueError`.
   */
  function Stem(template: string, s: Student): string {
    match Template.FormatMap(template, key => Lookup(StemFields(s), key))
    case Ok(stem) => stem
    case Err(_) => s.number + "_annotated"
  }

  /** A template that does not parse falls back to the number-based name for every student. */
  lemma StemMalformed(template: string, s: Student)
    requires Template.Parse(template).Err?
    ensures Stem(template, s) == s.number + "_annotated"
  {
  }

  /** With the default template, the stem is the student number (or "EMPTY") and "_annotated". */
  lemma StemDefaultTemplate(s: Student)
    ensures Stem(DataStore.DefaultTemplate, s) == OrEmpty(s.number) + "_annotated"
  {
    var lookup := key => Lookup(StemFields(s), key);
    var key := "student_number";
    assert !Template.AllDigits(key) by {
      assert !('0' <= key[0] <= '9');
    }
    assert DataStore.DefaultTemplate == "{" + key + "}" + "_annotated";
    Template.FormatFieldThenText(key, "_annotated", lookup);
    StemFieldsLookup(s, key);
  }

  /** What happened to one student the loop reached. */
  datatype StudentResult = Skipped | Exported(file: string) | Failed

  /** How the loop ended. */
  datatype LoopEnd = Completed | Cancelled(at: nat) | Crashed(at: nat)

  /**
   * One student: skipped without a source PDF; otherwise baked into
   * `<stem>.pdf`, which either works or shows an error and moves on.
   */
  function Step(s: Student, template: string, isFile: string -> bool, bakes: (string, string) -> bool): StudentResult {
    if !isFile(Exporter.SourceName(s.number)) then Skipped
    else
      var file := Stem(template, s) + ".pdf";
      if bakes(s.number, file) then Exported(file) else Failed
  }

  function CountExported(rs: seq<StudentResult>): (n: nat)
    ensures n <= |rs|
  {
    if |rs| == 0 then 0 else CountExported(rs[..|rs| - 1]) + (if rs[|rs| - 1].Exported? then 1 else 0)
  }

  function CountSkipped(rs: seq<StudentResult>): (n: nat)
    ensures n <= |rs|
  {
    if |rs| == 0 then 0 else CountSkipped(rs[..|rs| - 1]) + (if rs[|rs| - 1].Skipped? then 1 else 0)
  }

  function CountFailed(rs: seq<StudentResult>): (n: nat)
    ensures n <= |rs|
  {
    if |rs| == 0 then 0 else CountFailed(rs[..|rs| - 1]) + (if rs[|rs| - 1].Failed? then 1 else 0)
  }

  /** Every student reached is exactly one of exported, skipped and failed. */
  lemma {:induction false} CountsPartition(rs: seq<StudentResult>)
    ensures CountExported(rs) + CountSkipped(rs) + CountFailed(rs) == |rs|
  {
    if |rs| > 0 {
      CountsPartition(rs[..|rs| - 1]);
    }
  }

  /** One more result adds one to the count of its own kind. */
  lemma CountsSnoc(rs: seq<StudentResult>, r: StudentResult)
    ensures CountExported(rs + [r]) == CountExported(rs) + (if r.Exported? then 1 else 0)
    ensures CountSkipped(rs + [r]) == CountSkipped(rs) + (if r.Skipped? then 1 else 0)
  {
    assert (rs + [r])[..|rs|] == rs;
  }

  /** How many students the loop reached before it ended. */
  function Reached(end: LoopEnd, total: nat): nat {
    match end
    case Completed => total
    case Cancelled(k) => k
    case Crashed(k) => k
  }

  /**
   * `_export_annotated_pdfs`' loop.  Before each student it checks the
   * cancel flag, which is raised from student `cancelAt` on; a missing
   * source is skipped; loading the annotations happens outside the error
   * handler, so a failing load (`loads`) ends the whole export; a failing
   * bake only counts as neither exported nor skipped.
   */
  method Export(students: seq<Student>, template: string, cancelAt: Option<nat>,
                isFile: string -> bool, loads: string -> bool, bakes: (string, string) -> bool)
    returns (end: LoopEnd, results: seq<StudentResult>, exported: nat, skipped: nat)
    ensures |results| == Reached(end, |students|) <= |students|
    ensures forall j :: 0 <= j < |results| ==> results[j] == Step(students[j], template, isFile, bakes)
    ensures exported == CountExported(results) && skipped == CountSkipped(results)
    ensures forall j :: 0 <= j < |results| && isFile(Exporter.SourceName(students[j].number)) ==>
      loads(students[j].number)
    ensures end.Completed? ==> cancelAt.None? || cancelAt.value >= |students|
    ensures end.Cancelled? ==> cancelAt == Some(end.at) && end.at < |students|
    ensures end.Crashed? ==>
      (end.at < |students| && (cancelAt.None? || end.at < cancelAt.value)
       && isFile(Exporter.SourceName(students[end.at].number)) && !loads(students[end.at].number))
  {
    end, results, exported, skipped := Run(students, cancelAt,
      (s: Student) => isFile(Exporter.SourceName(s.number)), (s: Student) => loads(s.number),
      (s: Student) => Step(s, template, isFile, bakes));
  }

  /**
   * The bake call as the export loop writes it: it passes `log_path`,
   * `debug`, `student`, `grades`, `scheme` and `settings` to a
   * `bake_annotations` that takes only the source, the annotations and the
   * destination, so every call raises a `TypeError` before anything is
   * baked, and the loop's error handler turns it into a warning.
   */
  function BakesAsWritten(number: string, file: string): bool {
    false
  }

  /** As written, a student with a source PDF fails where a working bake exports it. */
  lemma AsWrittenStepFails(s: Student, template: string, isFile: string -> bool)
    requires isFile(Exporter.SourceName(s.number))
    ensures Step(s, template, isFile, BakesAsWritten) == Failed
    ensures Step(s, template, isFile, (n: string, f: string) => true) == Exported(Stem(template, s) + ".pdf")
  {
  }

  lemma {:induction false} NothingExported(rs: seq<StudentResult>)
    requires forall j :: 0 <= j < |rs| ==> !rs[j].Exported?
    ensures CountExported(rs) == 0
  {
    if |rs| > 0 {
      NothingExported(rs[..|rs| - 1]);
    }
  }

  /**
   * The export loop with the bake call as written: no student is ever
   * exported; each one reached is skipped without a source and failed with
   * one, and the final message reports 0 exported PDFs.
   */
  method ExportAsWritten(students: seq<Student>, template: string, cancelAt: Option<nat>,
                         isFile: string -> bool, loads: string -> bool)
    returns (end: LoopEnd, results: seq<StudentResult>, exported: nat, skipped: nat)
    ensures |results| == Reached(end, |students|) <= |students|
    ensures exported == 0
    ensures forall j :: 0 <= j < |results| ==>
      results[j] == if isFile(Exporter.SourceName(students[j].number)) then Failed else Skipped
    ensures skipped == CountSkipped(results)
  {
    end, results, exported, skipped := Export(students, template, cancelAt, isFile, loads, BakesAsWritten);
    NothingExported(results);
  }

  /**
   * The loop itself, with the source check, the annotation load and the
   * per-student work given as functions of the student.
   */
  method Run(students: seq<Student>, cancelAt: Option<nat>, hasSource: Student -> bool,
             loadsOk: Student -> bool, step: Student -> StudentResult)
    returns (end: LoopEnd, results: seq<StudentResult>, exported: nat, skipped: nat)
    ensures |results| == Reached(end, |students|) <= |students|
    ensures forall j :: 0 <= j < |results| ==> results[j] == step(students[j])
    ensures exported == CountExported(results) && skipped == CountSkipped(results)
    ensures forall j :: 0 <= j < |results| && hasSource(students[j]) ==> loadsOk(students[j])
    ensures end.Completed? ==> cancelAt.None? || cancelAt.value >= |students|
    ensures end.Cancelled? ==> cancelAt == Some(end.at) && end.at < |students|
    ensures end.Crashed? ==>
      (end.at < |students| && (cancelAt.None? || end.at < cancelAt.value)
       && hasSource(students[end.at]) && !loadsOk(students[end.at]))
  {
    results := [];
    exported := 0;
    skipped := 0;
    for i := 0 to |students|
      invariant |results| == i
      invariant forall j :: 0 <= j < i ==> results[j] == step(students[j])
      invariant exported == CountExported(results) && skipped == CountSkipped(results)
      invariant forall j :: 0 <= j < i && hasSource(students[j]) ==> loadsOk(students[j])
      invariant cancelAt.None? || i <= cancelAt.value
    {
      if cancelAt.Some? && i >= cancelAt.value {
        return Cancelled(i), results, exported, skipped;
      }
      var s := students[i];
      if hasSource(s) && !loadsOk(s) {
        return Crashed(i), results, exported, skipped;
      }
      var r := step(s);
      CountsSnoc(results, r);
      if r.Skipped? {
        skipped := skipped + 1;
      } else if r.Exported? {
        exported := exported + 1;
      }
      results := results + [r];
    }
    return Completed, results, exported, skipped;
  }
}

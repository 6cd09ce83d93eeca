/**
 * Persistence: how annotations, grading settings, the grading scheme, the
 * export template and the preset texts are written to and read back from
 * parsed JSON, and how roster rows become students.  File handling is left
 * out; every loader takes the value `json.load` (or the CSV reader)
 * produced, and every saver returns the value it would write.
 */
module DataStore {
  import opened Wrappers
  import opened Json
  import opened Models
  import Assoc
  import Text

  type Dict = seq<(string, Json)>

  // ── Generic list loading ──────────────────────────────────────────────────

  /** Load every element with `load`; the first failure fails the whole list. */
  function LoadAll<T>(vs: seq<Json>, load: Json -> Result<T, string>): (r: Result<seq<T>, string>)
    ensures r.Ok? ==> |r.value| == |vs| && forall i :: 0 <= i < |vs| ==> load(vs[i]) == Ok(r.value[i])
    ensures r.Err? <==> exists i :: 0 <= i < |vs| && load(vs[i]).Err?
  {
    if |vs| == 0 then Ok([])
    else
      match load(vs[0])
      case Err(e) => Err(e)
      case Ok(x) =>
        match LoadAll(vs[1..], load)
        case Err(e) =>
          assert exists i :: 0 <= i < |vs| && load(vs[i]).Err? by {
            var i :| 0 <= i < |vs[1..]| && load(vs[1..][i]).Err?;
            assert vs[1..][i] == vs[i + 1];
          }
          Err(e)
        case Ok(rest) =>
          assert forall i :: 1 <= i < |vs| ==> vs[i] == vs[1..][i - 1];
          Ok([x] + rest)
  }

  /** Save every element with `save`, in order. */
  function SaveAll<T>(xs: seq<T>, save: T -> Json): (r: seq<Json>)
    ensures |r| == |xs| && forall i :: 0 <= i < |xs| ==> r[i] == save(xs[i])
  {
    if |xs| == 0 then [] else [save(xs[0])] + SaveAll(xs[1..], save)
  }

  /** Every element saved with `save` and loaded back with its inverse `load` gives the list back. */
  lemma {:induction false} LoadAllRoundTrip<T>(xs: seq<T>, save: T -> Json, load: Json -> Result<T, string>)
    requires forall i :: 0 <= i < |xs| ==> load(save(xs[i])) == Ok(xs[i])
    ensures LoadAll(SaveAll(xs, save), load) == Ok(xs)
  {
    if |xs| > 0 {
      assert load(save(xs[0])) == Ok(xs[0]);
      assert SaveAll(xs, save)[1..] == SaveAll(xs[1..], save);
      assert forall i :: 0 <= i < |xs[1..]| ==> xs[1..][i] == xs[i + 1];
      LoadAllRoundTrip(xs[1..], save, load);
      assert [xs[0]] + xs[1..] == xs;
    }
  }

  function Field(d: Dict, k: string): (r: Result<Json, string>)
    ensures r.Ok? <==> k in Assoc.Keys(d)
    ensures r.Ok? ==> Assoc.Get(d, k) == Some(r.value)
  {
    match Assoc.Get(d, k)
    case None => Err("KeyError: " + k)
    case Some(v) => Ok(v)
  }

  function AsInt(v: Json): Result<int, string> {
    if v.JInt? then Ok(v.i) else Err("not an integer")
  }

  function AsStr(v: Json): Result<string, string> {
    if v.JStr? then Ok(v.s) else Err("not a string")
  }

  /** A JSON number as a coordinate. */
  function AsNum(v: Json): Result<real, string> {
    match v
    case JInt(i) => Ok(i as real)
    case JReal(x) => Ok(x)
    case _ => Err("not a number")
  }

  function AsObj(v: Json): Result<Dict, string> {
    if v.JObj? then Ok(v.fields) else Err("not an object")
  }

  /**
   * The values a Python `for` loop (or `list(v)`) visits in a JSON value:
   * a list's items, a string's characters and an object's keys, in order.
   * Iterating a number, a boolean or null is the `TypeError` that fails the
   * load.
   */
  function Iterate(v: Json): (r: Result<seq<Json>, string>)
    ensures r.Ok? <==> v.JArr? || v.JStr? || v.JObj?
    ensures v.JArr? ==> r == Ok(v.items)
    ensures v.JStr? ==> r.Ok? && |r.value| == |v.s| && forall i :: 0 <= i < |v.s| ==> r.value[i] == JStr([v.s[i]])
    ensures v.JObj? ==> r.Ok? && |r.value| == |v.fields| && forall i :: 0 <= i < |v.fields| ==> r.value[i] == JStr(v.fields[i].0)
  {
    match v
    case JArr(items) => Ok(items)
    case JStr(s) => Ok(seq(|s|, i requires 0 <= i < |s| => JStr([s[i]])))
    case JObj(fields) => Ok(seq(|fields|, i requires 0 <= i < |fields| => JStr(fields[i].0)))
    case _ => Err("not iterable")
  }

  /** `float(v)` that fails the load on a `TypeError` or `ValueError`. */
  function AsFloat(v: Json): Result<real, string> {
    match Float(v)
    case None => Err("float() failed")
    case Some(x) => Ok(x)
  }

  function OptNum(d: Dict, k: string): Result<Option<real>, string> {
    match GetOptional(d, k)
    case None => Ok(None)
    case Some(v) => match AsNum(v) case Err(e) => Err(e) case Ok(x) => Ok(Some(x))
  }

  function OptStr(d: Dict, k: string): Result<Option<string>, string> {
    match GetOptional(d, k)
    case None => Ok(None)
    case Some(v) => match AsStr(v) case Err(e) => Err(e) case Ok(s) => Ok(Some(s))
  }

  function RealJson(v: Option<real>): (r: Option<Json>)
    ensures r.Some? <==> v.Some?
    ensures r.Some? ==> r.value == JReal(v.value)
  {
    if v.Some? then Some(JReal(v.value)) else None
  }

  function StrJson(v: Option<string>): (r: Option<Json>)
    ensures r.Some? <==> v.Some?
    ensures r.Some? ==> r.value == JStr(v.value)
  {
    if v.Some? then Some(JStr(v.value)) else None
  }

  // ── Annotations ───────────────────────────────────────────────────────────

  /** The optional part of a saved record: text, x2, y2 and width, each only when present. */
  function AnnotationOptional(a: Annotation): Dict {
    OptEntry("text", StrJson(a.text))
      + (OptEntry("x2", RealJson(a.x2)) + (OptEntry("y2", RealJson(a.y2)) + (OptEntry("width", RealJson(a.width)) + [])))
  }

  /** One record of `save_annotations`: page, type, x and y, then the optional part. */
  function SaveItem(a: Annotation): Dict {
    [("page", JInt(a.page))] + ([("type", JStr(a.kind))] + ([("x", JReal(a.x))] + ([("y", JReal(a.y))]
      + AnnotationOptional(a))))
  }

  /** Lookup in a record that has at most one entry per optional key. */
  lemma GetOptEntry(k: string, v: Option<Json>, rest: Dict, key: string)
    ensures Assoc.Get(OptEntry(k, v) + rest, key) ==
      if v.Some? && key == k then Some(v.value) else Assoc.Get(rest, key)
  {
    if v.Some? {
      Assoc.GetCons(k, v.value, rest, key);
    } else {
      assert OptEntry(k, v) + rest == rest;
    }
  }

  /** What each key of the optional part reads as. */
  lemma OptionalLookup(a: Annotation, key: string)
    ensures Assoc.Get(AnnotationOptional(a), key) ==
      if key == "text" then StrJson(a.text)
      else if key == "x2" then RealJson(a.x2)
      else if key == "y2" then RealJson(a.y2)
      else if key == "width" then RealJson(a.width)
      else None
  {
    var w := OptEntry("width", RealJson(a.width)) + [];
    var y2w := OptEntry("y2", RealJson(a.y2)) + w;
    var x2y2w := OptEntry("x2", RealJson(a.x2)) + y2w;
    GetOptEntry("text", StrJson(a.text), x2y2w, key);
    GetOptEntry("x2", RealJson(a.x2), y2w, key);
    GetOptEntry("y2", RealJson(a.y2), w, key);
    GetOptEntry("width", RealJson(a.width), [], key);
  }

  /**
   * What each key of a saved record reads as: the four required fields, the
   * four optional ones exactly when present, and nothing else (no height).
   */
  lemma SaveItemLookup(a: Annotation, key: string)
    ensures Assoc.Get(SaveItem(a), key) ==
      if key == "page" then Some(JInt(a.page))
      else if key == "type" then Some(JStr(a.kind))
      else if key == "x" then Some(JReal(a.x))
      else if key == "y" then Some(JReal(a.y))
      else if key == "text" then StrJson(a.text)
      else if key == "x2" then RealJson(a.x2)
      else if key == "y2" then RealJson(a.y2)
      else if key == "width" then RealJson(a.width)
      else None
  {
    var opt := AnnotationOptional(a);
    Assoc.GetCons("y", JReal(a.y), opt, key);
    Assoc.GetCons("x", JReal(a.x), [("y", JReal(a.y))] + opt, key);
    Assoc.GetCons("type", JStr(a.kind), [("x", JReal(a.x))] + ([("y", JReal(a.y))] + opt), key);
    Assoc.GetCons("page", JInt(a.page), [("type", JStr(a.kind))] + ([("x", JReal(a.x))] + ([("y", JReal(a.y))] + opt)), key);
    OptionalLookup(a, key);
  }

  /** A saved record has an optional key exactly when the field is present, and never a height. */
  lemma SaveItemKeys(a: Annotation)
    ensures "height" !in Assoc.Keys(SaveItem(a))
    ensures "text" in Assoc.Keys(SaveItem(a)) <==> a.text.Some?
    ensures "x2" in Assoc.Keys(SaveItem(a)) <==> a.x2.Some?
    ensures "y2" in Assoc.Keys(SaveItem(a)) <==> a.y2.Some?
    ensures "width" in Assoc.Keys(SaveItem(a)) <==> a.width.Some?
  {
    SaveItemLookup(a, "height");
    SaveItemLookup(a, "text");
    SaveItemLookup(a, "x2");
    SaveItemLookup(a, "y2");
    SaveItemLookup(a, "width");
  }

  /**
   * One record of `load_annotations`: page, type, x and y are required;
   * text, x2, y2 and width are optional (missing or null), and any other key,
   * a height included, is ignored.
   */
  function LoadItem(item: Json): (r: Result<Annotation, string>)
    ensures r.Ok? ==>
      (item.JObj? && "page" in Assoc.Keys(item.fields) && "type" in Assoc.Keys(item.fields)
       && "x" in Assoc.Keys(item.fields) && "y" in Assoc.Keys(item.fields))
  {
    var f :- AsObj(item);
    var req :- LoadRequired(f);
    var opt :- LoadOptional(f);
    Ok(Annotation(req.0, req.1, req.2, req.3, opt.0, opt.1, opt.2, opt.3))
  }

  /** Page, type, x and y: each must be present and of the right type. */
  function LoadRequired(f: Dict): (r: Result<(int, string, real, real), string>)
    ensures r.Ok? ==>
      ("page" in Assoc.Keys(f) && "type" in Assoc.Keys(f) && "x" in Assoc.Keys(f) && "y" in Assoc.Keys(f))
  {
    var pv :- Field(f, "page");
    var page :- AsInt(pv);
    var tv :- Field(f, "type");
    var kind :- AsStr(tv);
    var xv :- Field(f, "x");
    var x :- AsNum(xv);
    var yv :- Field(f, "y");
    var y :- AsNum(yv);
    Ok((page, kind, x, y))
  }

  /** Text, x2, y2 and width: each may be missing or null, and is of the right type otherwise. */
  function LoadOptional(f: Dict): Result<(Option<string>, Option<real>, Option<real>, Option<real>), string> {
    var text :- OptStr(f, "text");
    var x2 :- OptNum(f, "x2");
    var y2 :- OptNum(f, "y2");
    var width :- OptNum(f, "width");
    Ok((text, x2, y2, width))
  }

  lemma LoadRequiredFromFields(f: Dict, a: Annotation)
    requires Assoc.Get(f, "page") == Some(JInt(a.page)) && Assoc.Get(f, "type") == Some(JStr(a.kind))
    requires Assoc.Get(f, "x") == Some(JReal(a.x)) && Assoc.Get(f, "y") == Some(JReal(a.y))
    ensures LoadRequired(f) == Ok((a.page, a.kind, a.x, a.y))
  {
    assert Field(f, "page") == Ok(JInt(a.page));
    assert Field(f, "type") == Ok(JStr(a.kind));
    assert Field(f, "x") == Ok(JReal(a.x));
    assert Field(f, "y") == Ok(JReal(a.y));
  }

  lemma LoadOptionalFromFields(f: Dict, a: Annotation)
    requires Assoc.Get(f, "text") == StrJson(a.text) && Assoc.Get(f, "x2") == RealJson(a.x2)
    requires Assoc.Get(f, "y2") == RealJson(a.y2) && Assoc.Get(f, "width") == RealJson(a.width)
    ensures LoadOptional(f) == Ok((a.text, a.x2, a.y2, a.width))
  {
    assert OptStr(f, "text") == Ok(a.text);
    assert OptNum(f, "x2") == Ok(a.x2);
    assert OptNum(f, "y2") == Ok(a.y2);
    assert OptNum(f, "width") == Ok(a.width);
  }

  /** Any record whose fields read as an annotation's loads as that annotation. */
  lemma LoadItemFromFields(f: Dict, a: Annotation)
    requires Assoc.Get(f, "page") == Some(JInt(a.page)) && Assoc.Get(f, "type") == Some(JStr(a.kind))
    requires Assoc.Get(f, "x") == Some(JReal(a.x)) && Assoc.Get(f, "y") == Some(JReal(a.y))
    requires Assoc.Get(f, "text") == StrJson(a.text) && Assoc.Get(f, "x2") == RealJson(a.x2)
    requires Assoc.Get(f, "y2") == RealJson(a.y2) && Assoc.Get(f, "width") == RealJson(a.width)
    ensures LoadItem(JObj(f)) == Ok(a)
  {
    LoadRequiredFromFields(f, a);
    LoadOptionalFromFields(f, a);
  }

  /** Loading a saved record gives the annotation back, field for field. */
  lemma LoadSaveItem(a: Annotation)
    ensures LoadItem(JObj(SaveItem(a))) == Ok(a)
  {
    var f := SaveItem(a);
    SaveItemLookup(a, "page");
    SaveItemLookup(a, "type");
    SaveItemLookup(a, "x");
    SaveItemLookup(a, "y");
    SaveItemLookup(a, "text");
    SaveItemLookup(a, "x2");
    SaveItemLookup(a, "y2");
    SaveItemLookup(a, "width");
    LoadItemFromFields(f, a);
  }

  /**
   * A point annotation (a stamp or mark) is saved as a record of exactly its
   * page, type and position, and such a four-key record loads back as the
   * point annotation, with no text, end point or width.
   */
  lemma PointRecordRoundTrip(page: int, kind: string, x: real, y: real)
    ensures SaveItem(PointAnnotation(page, kind, x, y)) ==
      [("page", JInt(page)), ("type", JStr(kind)), ("x", JReal(x)), ("y", JReal(y))]
    ensures LoadItem(JObj([("page", JInt(page)), ("type", JStr(kind)), ("x", JReal(x)), ("y", JReal(y))]))
      == Ok(Annotation(page, kind, x, y, None, None, None, None))
  {
    var a := PointAnnotation(page, kind, x, y);
    PointRecordSaved(a);
    LoadSaveItem(a);
  }

  lemma PointRecordSaved(a: Annotation)
    requires a.text.None? && a.x2.None? && a.y2.None? && a.width.None?
    ensures SaveItem(a) == [("page", JInt(a.page)), ("type", JStr(a.kind)), ("x", JReal(a.x)), ("y", JReal(a.y))]
  {
    assert AnnotationOptional(a) == [];
    assert [("y", JReal(a.y))] + [] == [("y", JReal(a.y))];
  }

  function SaveItemJson(a: Annotation): Json {
    JObj(SaveItem(a))
  }

  /** `save_annotations`: the list of records, in annotation order. */
  function SaveAnnotations(anns: seq<Annotation>): (r: Json)
    ensures r.JArr? && |r.items| == |anns|
    ensures forall i :: 0 <= i < |anns| ==> r.items[i] == JObj(SaveItem(anns[i]))
  {
    JArr(SaveAll(anns, SaveItemJson))
  }

  /** `load_annotations` on the parsed file. */
  function LoadAnnotations(data: Json): Result<seq<Annotation>, string> {
    var items :- Iterate(data);
    LoadAll(items, LoadItem)
  }

  /**
   * The loop over the file visits whatever the value iterates to: an empty
   * string or object is no annotations, and the characters of a string or
   * keys of an object are not records, so anything else but a list fails.
   */
  lemma LoadAnnotationsIterated(data: Json)
    ensures data == JStr("") || data == JObj([]) ==> LoadAnnotations(data) == Ok([])
    ensures data.JStr? && data.s != [] ==> LoadAnnotations(data).Err?
    ensures data.JObj? && data.fields != [] ==> LoadAnnotations(data).Err?
    ensures !data.JArr? && !data.JStr? && !data.JObj? ==> LoadAnnotations(data).Err?
  {
    if data.JStr? && data.s != [] {
      assert LoadItem(Iterate(data).value[0]).Err?;
    } else if data.JObj? && data.fields != [] {
      assert LoadItem(Iterate(data).value[0]).Err?;
    }
  }

  /** Saving and loading back reproduces the annotations exactly, in order. */
  lemma AnnotationsRoundTrip(anns: seq<Annotation>)
    ensures LoadAnnotations(SaveAnnotations(anns)) == Ok(anns)
  {
    forall i | 0 <= i < |anns|
      ensures LoadItem(SaveItemJson(anns[i])) == Ok(anns[i])
    {
      LoadSaveItem(anns[i]);
    }
    LoadAllRoundTrip(anns, SaveItemJson, LoadItem);
  }

  // ── Grading settings ──────────────────────────────────────────────────────

  /** The settings a project without a `grading_settings` section gets. */
  const DefaultSettings: GradingSettings :=
    GradingSettings(20.0, 0.5, None, false, false, true, false, false)

  function SettingsObject(s: GradingSettings): Dict {
    [("max_note", JReal(s.maxNote))]
      + ([("rounding", JReal(s.rounding))]
      + ([("score_total", ScoreTotalJson(s.scoreTotal))]
      + ([("debug_mode", JBool(s.debugMode))]
      + ([("cover_page_detail", JBool(s.coverPageDetail))]
      + ([("hi_dpr", JBool(s.hiDpr))]
      + ([("grading_separate_window", JBool(s.gradingSeparateWindow))]
      + [("show_extra_fields", JBool(s.showExtraFields))]))))))
  }

  /** A score total as saved: the number, or null for "computed from the scheme". */
  function ScoreTotalJson(t: Option<real>): Json {
    if t.Some? then JReal(t.value) else JNull
  }

  /** `save_grading_settings_to_config`: replace the `grading_settings` section, keep the rest. */
  function SaveSettings(config: Dict, s: GradingSettings): (r: Dict)
    ensures Assoc.Get(r, "grading_settings") == Some(JObj(SettingsObject(s)))
    ensures forall k :: k != "grading_settings" ==> Assoc.Get(r, k) == Assoc.Get(config, k)
  {
    Assoc.PutFrame(config, "grading_settings", JObj(SettingsObject(s)));
    Assoc.Put(config, "grading_settings", JObj(SettingsObject(s)))
  }

  function LoadScoreTotal(gs: Dict): Result<Option<real>, string> {
    match GetOptional(gs, "score_total")
    case None => Ok(None)
    case Some(v) => match AsFloat(v) case Err(e) => Err(e) case Ok(x) => Ok(Some(x))
  }

  /**
   * `load_grading_settings_from_config`: every field read with its default
   * when missing; numbers through `float`, flags through `bool`, and a
   * missing or null `score_total` as `None`.
   */
  function LoadSettings(config: Dict): Result<GradingSettings, string> {
    var gs :- AsObj(GetOr(config, "grading_settings", JObj([])));
    var maxNote :- AsFloat(GetOr(gs, "max_note", JReal(20.0)));
    var rounding :- AsFloat(GetOr(gs, "rounding", JReal(0.5)));
    var scoreTotal :- LoadScoreTotal(gs);
    Ok(GradingSettings(
      maxNote, rounding, scoreTotal,
      Truthy(GetOr(gs, "debug_mode", JBool(false))),
      Truthy(GetOr(gs, "cover_page_detail", JBool(false))),
      Truthy(GetOr(gs, "hi_dpr", JBool(true))),
      Truthy(GetOr(gs, "grading_separate_window", JBool(false))),
      Truthy(GetOr(gs, "show_extra_fields", JBool(false)))))
  }

  /** Without a settings section, or with an empty one, every field takes its documented default. */
  lemma SettingsDefaults(config: Dict)
    requires "grading_settings" !in Assoc.Keys(config) || Assoc.Get(config, "grading_settings") == Some(JObj([]))
    ensures LoadSettings(config) == Ok(DefaultSettings)
  {
  }

  /** Every field of a saved settings section reads back as written. */
  lemma SettingsLookup(s: GradingSettings, key: string)
    ensures Assoc.Get(SettingsObject(s), key) ==
      if key == "max_note" then Some(JReal(s.maxNote))
      else if key == "rounding" then Some(JReal(s.rounding))
      else if key == "score_total" then Some(ScoreTotalJson(s.scoreTotal))
      else if key == "debug_mode" then Some(JBool(s.debugMode))
      else if key == "cover_page_detail" then Some(JBool(s.coverPageDetail))
      else if key == "hi_dpr" then Some(JBool(s.hiDpr))
      else if key == "grading_separate_window" then Some(JBool(s.gradingSeparateWindow))
      else if key == "show_extra_fields" then Some(JBool(s.showExtraFields))
      else None
  {
    var e7 := [("show_extra_fields", JBool(s.showExtraFields))];
    var e6 := [("grading_separate_window", JBool(s.gradingSeparateWindow))] + e7;
    var e5 := [("hi_dpr", JBool(s.hiDpr))] + e6;
    var e4 := [("cover_page_detail", JBool(s.coverPageDetail))] + e5;
    var e3 := [("debug_mode", JBool(s.debugMode))] + e4;
    var e2 := [("score_total", ScoreTotalJson(s.scoreTotal))] + e3;
    var e1 := [("rounding", JReal(s.rounding))] + e2;
    assert e7 == [("show_extra_fields", JBool(s.showExtraFields))] + [];
    Assoc.GetCons("show_extra_fields", JBool(s.showExtraFields), [], key);
    Assoc.GetCons("grading_separate_window", JBool(s.gradingSeparateWindow), e7, key);
    Assoc.GetCons("hi_dpr", JBool(s.hiDpr), e6, key);
    Assoc.GetCons("cover_page_detail", JBool(s.coverPageDetail), e5, key);
    Assoc.GetCons("debug_mode", JBool(s.debugMode), e4, key);
    Assoc.GetCons("score_total", ScoreTotalJson(s.scoreTotal), e3, key);
    Assoc.GetCons("rounding", JReal(s.rounding), e2, key);
    Assoc.GetCons("max_note", JReal(s.maxNote), e1, key);
  }

  /** Any settings section whose fields read as the given settings loads as them. */
  lemma LoadSettingsFromFields(config: Dict, obj: Dict, s: GradingSettings)
    requires Assoc.Get(config, "grading_settings") == Some(JObj(obj))
    requires Assoc.Get(obj, "max_note") == Some(JReal(s.maxNote))
    requires Assoc.Get(obj, "rounding") == Some(JReal(s.rounding))
    requires Assoc.Get(obj, "score_total") == Some(ScoreTotalJson(s.scoreTotal))
    requires Assoc.Get(obj, "debug_mode") == Some(JBool(s.debugMode))
    requires Assoc.Get(obj, "cover_page_detail") == Some(JBool(s.coverPageDetail))
    requires Assoc.Get(obj, "hi_dpr") == Some(JBool(s.hiDpr))
    requires Assoc.Get(obj, "grading_separate_window") == Some(JBool(s.gradingSeparateWindow))
    requires Assoc.Get(obj, "show_extra_fields") == Some(JBool(s.showExtraFields))
    ensures LoadSettings(config) == Ok(s)
  {
    assert GetOr(config, "grading_settings", JObj([])) == JObj(obj);
    assert AsFloat(GetOr(obj, "max_note", JReal(20.0))) == Ok(s.maxNote);
    assert AsFloat(GetOr(obj, "rounding", JReal(0.5))) == Ok(s.rounding);
    assert LoadScoreTotal(obj) == Ok(s.scoreTotal);
    assert Truthy(GetOr(obj, "debug_mode", JBool(false))) == s.debugMode;
    assert Truthy(GetOr(obj, "cover_page_detail", JBool(false))) == s.coverPageDetail;
    assert Truthy(GetOr(obj, "hi_dpr", JBool(true))) == s.hiDpr;
    assert Truthy(GetOr(obj, "grading_separate_window", JBool(false))) == s.gradingSeparateWindow;
    assert Truthy(GetOr(obj, "show_extra_fields", JBool(false))) == s.showExtraFields;
  }

  /** Saving settings into any config and loading them back gives the same settings. */
  lemma SettingsRoundTrip(config: Dict, s: GradingSettings)
    ensures LoadSettings(SaveSettings(config, s)) == Ok(s)
  {
    SettingsLookup(s, "max_note");
    SettingsLookup(s, "rounding");
    SettingsLookup(s, "score_total");
    SettingsLookup(s, "debug_mode");
    SettingsLookup(s, "cover_page_detail");
    SettingsLookup(s, "hi_dpr");
    SettingsLookup(s, "grading_separate_window");
    SettingsLookup(s, "show_extra_fields");
    LoadSettingsFromFields(SaveSettings(config, s), SettingsObject(s), s);
  }

  // ── Grading scheme ────────────────────────────────────────────────────────

  function SubquestionJson(q: Subquestion): Json {
    JObj([("name", JStr(q.name))] + [("max_points", JReal(q.maxPoints))])
  }

  function ExerciseJson(ex: Exercise): Json {
    JObj([("name", JStr(ex.name))] + [("subquestions", JArr(SaveAll(ex.subquestions, SubquestionJson)))])
  }

  /** `save_grading_scheme_to_config`: replace the `exercises` list, keep the rest. */
  function SaveScheme(config: Dict, scheme: GradingScheme): (r: Dict)
    ensures Assoc.Get(r, "exercises") == Some(JArr(SaveAll(scheme.exercises, ExerciseJson)))
    ensures forall k :: k != "exercises" ==> Assoc.Get(r, k) == Assoc.Get(config, k)
  {
    var v := JArr(SaveAll(scheme.exercises, ExerciseJson));
    Assoc.PutFrame(config, "exercises", v);
    Assoc.Put(config, "exercises", v)
  }

  /** A subquestion needs a string name and a `max_points` that `float` accepts. */
  function LoadSubquestion(v: Json): Result<Subquestion, string> {
    var f :- AsObj(v);
    var nv :- Field(f, "name");
    var name :- AsStr(nv);
    var pv :- Field(f, "max_points");
    var points :- AsFloat(pv);
    Ok(Subquestion(name, points))
  }

  /** An exercise needs a string name; a missing subquestion list is empty. */
  function LoadExercise(v: Json): Result<Exercise, string> {
    var f :- AsObj(v);
    var nv :- Field(f, "name");
    var name :- AsStr(nv);
    var sv :- Iterate(GetOr(f, "subquestions", JArr([])));
    var subs :- LoadAll(sv, LoadSubquestion);
    Ok(Exercise(name, subs))
  }

  /** `load_grading_scheme_from_config`: a missing `exercises` list is an empty scheme. */
  function LoadScheme(config: Dict): (r: Result<GradingScheme, string>)
    ensures "exercises" !in Assoc.Keys(config) ==> r == Ok(GradingScheme([]))
  {
    var ev :- Iterate(GetOr(config, "exercises", JArr([])));
    var exs :- LoadAll(ev, LoadExercise);
    Ok(GradingScheme(exs))
  }

  /** An empty string or object where the exercises belong is iterated as no exercises. */
  lemma LoadSchemeEmptyContainer(config: Dict)
    requires Assoc.Get(config, "exercises") == Some(JStr("")) || Assoc.Get(config, "exercises") == Some(JObj([]))
    ensures LoadScheme(config) == Ok(GradingScheme([]))
  {
    assert "exercises" in Assoc.Keys(config);
    assert Iterate(GetOr(config, "exercises", JArr([]))) == Ok([]);
  }

  /** An empty string or object where the subquestions belong is iterated as no subquestions. */
  lemma LoadExerciseEmptyContainer(f: Dict, name: string)
    requires Assoc.Get(f, "name") == Some(JStr(name))
    requires Assoc.Get(f, "subquestions") == Some(JStr("")) || Assoc.Get(f, "subquestions") == Some(JObj([]))
    ensures LoadExercise(JObj(f)) == Ok(Exercise(name, []))
  {
    assert "name" in Assoc.Keys(f) && "subquestions" in Assoc.Keys(f);
    assert Iterate(GetOr(f, "subquestions", JArr([]))) == Ok([]);
  }

  lemma LoadSaveSubquestion(q: Subquestion)
    ensures LoadSubquestion(SubquestionJson(q)) == Ok(q)
  {
    var rest := [("max_points", JReal(q.maxPoints))];
    assert rest == [("max_points", JReal(q.maxPoints))] + [];
    Assoc.GetCons("max_points", JReal(q.maxPoints), [], "max_points");
    Assoc.GetCons("name", JStr(q.name), rest, "name");
    Assoc.GetCons("name", JStr(q.name), rest, "max_points");
  }

  lemma LoadSaveExercise(ex: Exercise)
    ensures LoadExercise(ExerciseJson(ex)) == Ok(ex)
  {
    var sv := JArr(SaveAll(ex.subquestions, SubquestionJson));
    var rest := [("subquestions", sv)];
    assert rest == [("subquestions", sv)] + [];
    Assoc.GetCons("subquestions", sv, [], "subquestions");
    Assoc.GetCons("name", JStr(ex.name), rest, "name");
    Assoc.GetCons("name", JStr(ex.name), rest, "subquestions");
    forall i | 0 <= i < |ex.subquestions|
      ensures LoadSubquestion(SubquestionJson(ex.subquestions[i])) == Ok(ex.subquestions[i])
    {
      LoadSaveSubquestion(ex.subquestions[i]);
    }
    LoadAllRoundTrip(ex.subquestions, SubquestionJson, LoadSubquestion);
  }

  /** Saving a scheme and loading it back keeps every name, order and maximum. */
  lemma SchemeRoundTrip(config: Dict, scheme: GradingScheme)
    ensures LoadScheme(SaveScheme(config, scheme)) == Ok(scheme)
  {
    forall i | 0 <= i < |scheme.exercises|
      ensures LoadExercise(ExerciseJson(scheme.exercises[i])) == Ok(scheme.exercises[i])
    {
      LoadSaveExercise(scheme.exercises[i]);
    }
    LoadAllRoundTrip(scheme.exercises, ExerciseJson, LoadExercise);
    assert GetOr(SaveScheme(config, scheme), "exercises", JArr([])) == JArr(SaveAll(scheme.exercises, ExerciseJson));
  }

  // ── Export template and presets ───────────────────────────────────────────

  const DefaultTemplate: string := "{student_number}_annotated"

  /** `get_export_filename_template`: the stored template, or the default when none is stored. */
  function GetExportTemplate(config: Dict): (r: Result<string, string>)
    ensures "export_filename_template" !in Assoc.Keys(config) ==> r == Ok(DefaultTemplate)
    ensures r.Ok? && "export_filename_template" in Assoc.Keys(config) ==>
      Assoc.Get(config, "export_filename_template") == Some(JStr(r.value))
  {
    match Assoc.Get(config, "export_filename_template")
    case None => Ok(DefaultTemplate)
    case Some(v) => AsStr(v)
  }

  function SaveExportTemplate(config: Dict, template: string): Dict {
    Assoc.Put(config, "export_filename_template", JStr(template))
  }

  /** A saved template is the one read back, whatever else the config holds. */
  lemma TemplateRoundTrip(config: Dict, template: string)
    ensures GetExportTemplate(SaveExportTemplate(config, template)) == Ok(template)
  {
    Assoc.PutGet(config, "export_filename_template", JStr(template), "export_filename_template");
  }

  function LoadPresets(config: Dict): Result<seq<string>, string> {
    var items :- Iterate(GetOr(config, "preset_annotations", JArr([])));
    LoadAll(items, AsStr)
  }

  /** `list(s)` of a stored string gives its characters, each as a preset text. */
  lemma PresetsFromString(config: Dict, t: string)
    requires Assoc.Get(config, "preset_annotations") == Some(JStr(t))
    ensures LoadPresets(config).Ok?
    ensures |LoadPresets(config).value| == |t|
    ensures forall i :: 0 <= i < |t| ==> LoadPresets(config).value[i] == [t[i]]
  {
    assert "preset_annotations" in Assoc.Keys(config);
    var items := Iterate(JStr(t)).value;
    forall i | 0 <= i < |items| ensures AsStr(items[i]).Ok? {
    }
  }

  function StrOf(s: string): Json {
    JStr(s)
  }

  function SavePresets(config: Dict, presets: seq<string>): Dict {
    Assoc.Put(config, "preset_annotations", JArr(SaveAll(presets, StrOf)))
  }

  /** Saved preset texts read back unchanged and in order. */
  lemma PresetsRoundTrip(config: Dict, presets: seq<string>)
    ensures LoadPresets(SavePresets(config, presets)) == Ok(presets)
  {
    var v := JArr(SaveAll(presets, StrOf));
    Assoc.PutGet(config, "preset_annotations", v, "preset_annotations");
    assert GetOr(SavePresets(config, presets), "preset_annotations", JArr([])) == v;
    forall i | 0 <= i < |presets| ensures AsStr(StrOf(presets[i])) == Ok(presets[i]) {
    }
    LoadAllRoundTrip(presets, StrOf, AsStr);
  }

  // ── Roster ────────────────────────────────────────────────────────────────

  /** A CSV row as the dictionary reader gives it; a short row has `None` for its missing cells. */
  type Row = seq<(string, Option<string>)>

  predicate IsCore(k: string) {
    k == "student_number" || k == "last_name" || k == "first_name"
  }

  /** Python's `str(v)` on a cell: a missing cell prints as "None". */
  function PyStr(v: Option<string>): string {
    if v.Some? then v.value else "None"
  }

  /** A row's cells as `str(v).strip()` gives them. */
  function StrippedCells(row: Row): (r: seq<(string, string)>)
    ensures |r| == |row|
    ensures forall j :: 0 <= j < |row| ==> r[j] == (row[j].0, Text.Strip(PyStr(row[j].1)))
  {
    if |row| == 0 then [] else [(row[0].0, Text.Strip(PyStr(row[0].1)))] + StrippedCells(row[1..])
  }

  /** The non-core columns of a row, in column order, with stripped values. */
  function ExtraFields(row: Row): (r: seq<(string, string)>)
    ensures forall e :: e in r <==> e in StrippedCells(row) && !IsCore(e.0)
  {
    if |row| == 0 then []
    else
      var rest := ExtraFields(row[1..]);
      assert StrippedCells(row) == [(row[0].0, Text.Strip(PyStr(row[0].1)))] + StrippedCells(row[1..]);
      if IsCore(row[0].0) then rest else [(row[0].0, Text.Strip(PyStr(row[0].1)))] + rest
  }

  datatype RosterError = MissingColumn(column: string) | DuplicateNumber(number: string)

  /** A column's stripped cell, when the row has the column. */
  function Column(row: Row, column: string): Option<string> {
    match Assoc.Get(row, column)
    case None => None
    case Some(v) => Some(Text.Strip(PyStr(v)))
  }

  /** `row[column]`, stripped; a missing column is the `KeyError` that fails the load. */
  function Cell(row: Row, column: string): Result<string, RosterError> {
    match Column(row, column)
    case None => Err(MissingColumn(column))
    case Some(c) => Ok(c)
  }

  /** The stripped student number of a row, when it has the column. */
  function NumberOf(row: Row): Option<string> {
    Column(row, "student_number")
  }

  /** One roster row as a student: the three core columns, stripped, and the other columns as extras. */
  function RowStudent(row: Row): (r: Result<Student, RosterError>)
    ensures r.Ok? ==> NumberOf(row) == Some(r.value.number)
    ensures r.Ok? ==> r.value.extra == ExtraFields(row)
    ensures r.Err? ==> r.error.MissingColumn?
  {
    var number :- Cell(row, "student_number");
    var last :- Cell(row, "last_name");
    var first :- Cell(row, "first_name");
    Ok(Student(number, last, first, ExtraFields(row)))
  }

  /**
   * A row is a student exactly when it has all three core columns; the
   * student's number and names are those cells, stripped, and the first
   * missing core column (number, then last name, then first name) is the
   * one the load reports.
   */
  lemma RowStudentCells(row: Row)
    ensures var keys := Assoc.Keys(row);
      RowStudent(row).Ok? <==> "student_number" in keys && "last_name" in keys && "first_name" in keys
    ensures RowStudent(row).Ok? ==>
      var st := RowStudent(row).value;
      st.number == Text.Strip(PyStr(Assoc.Get(row, "student_number").value))
      && st.last == Text.Strip(PyStr(Assoc.Get(row, "last_name").value))
      && st.first == Text.Strip(PyStr(Assoc.Get(row, "first_name").value))
    ensures "student_number" !in Assoc.Keys(row) ==> RowStudent(row) == Err(MissingColumn("student_number"))
    ensures "student_number" in Assoc.Keys(row) && "last_name" !in Assoc.Keys(row) ==>
      RowStudent(row) == Err(MissingColumn("last_name"))
    ensures "student_number" in Assoc.Keys(row) && "last_name" in Assoc.Keys(row) && "first_name" !in Assoc.Keys(row) ==>
      RowStudent(row) == Err(MissingColumn("first_name"))
  {
  }

  /**
   * The extra fields keep the column order: those of two runs of columns
   * are the extra fields of the first run followed by those of the second.
   */
  lemma {:induction false} ExtraFieldsAppend(a: Row, b: Row)
    ensures ExtraFields(a + b) == ExtraFields(a) + ExtraFields(b)
    decreases |a|
  {
    if |a| > 0 {
      assert (a + b)[1..] == a[1..] + b;
      ExtraFieldsAppend(a[1..], b);
    } else {
      assert a + b == b;
    }
  }

  /** One column on its own: no extra field for a core column, its stripped cell otherwise. */
  lemma ExtraFieldsSingle(name: string, v: Option<string>)
    ensures ExtraFields([(name, v)]) == if IsCore(name) then [] else [(name, Text.Strip(PyStr(v)))]
  {
    assert [(name, v)][1..] == [];
  }

  predicate DistinctNumbers(students: seq<Student>) {
    forall i, j :: 0 <= i < j < |students| ==> students[i].number != students[j].number
  }

  /** No two rows carry the same stripped student number. */
  predicate DistinctRowNumbers(rows: seq<Row>) {
    forall i, j :: 0 <= i < j < |rows| ==> NumberOf(rows[i]) != NumberOf(rows[j])
  }

  lemma RowStudentNeedsNumber(row: Row)
    requires NumberOf(row).None?
    ensures RowStudent(row).Err?
  {
  }

  /**
   * The `load_students` loop from some row on, with `seen` the numbers of the
   * rows before: the number is read first, a number already seen fails the
   * load, and then the row becomes a student.
   */
  function LoadFrom(rows: seq<Row>, seen: set<string>): Result<seq<Student>, RosterError>
    decreases |rows|
  {
    if |rows| == 0 then Ok([])
    else
      match NumberOf(rows[0])
      case None => Err(MissingColumn("student_number"))
      case Some(n) =>
        if n in seen then Err(DuplicateNumber(n))
        else
          var st :- RowStudent(rows[0]);
          var rest :- LoadFrom(rows[1..], seen + {n});
          Ok([st] + rest)
  }

  /** A successful load has one student per row, none with a number seen before, no two alike. */
  lemma {:induction false} LoadFromOk(rows: seq<Row>, seen: set<string>)
    ensures var r := LoadFrom(rows, seen);
      r.Ok? ==>
        (|r.value| == |rows|
         && (forall i :: 0 <= i < |rows| ==> RowStudent(rows[i]) == Ok(r.value[i]))
         && (forall i :: 0 <= i < |rows| ==> r.value[i].number !in seen)
         && DistinctNumbers(r.value))
    decreases |rows|
  {
    if |rows| > 0 && LoadFrom(rows, seen).Ok? {
      var n := NumberOf(rows[0]).value;
      var st := RowStudent(rows[0]).value;
      var rest := LoadFrom(rows[1..], seen + {n}).value;
      LoadFromOk(rows[1..], seen + {n});
      assert st.number == n;
      assert LoadFrom(rows, seen).value == [st] + rest;
      ConsLoaded(rows, seen, st, rest);
    }
  }

  /** The first row's student in front of the rest's keeps every property a load promises. */
  lemma ConsLoaded(rows: seq<Row>, seen: set<string>, st: Student, rest: seq<Student>)
    requires |rows| > 0 && RowStudent(rows[0]) == Ok(st) && st.number !in seen
    requires |rest| == |rows| - 1
    requires forall i :: 0 <= i < |rest| ==> RowStudent(rows[1..][i]) == Ok(rest[i])
    requires forall i :: 0 <= i < |rest| ==> rest[i].number !in seen + {st.number}
    requires DistinctNumbers(rest)
    ensures forall i :: 0 <= i < |rows| ==> RowStudent(rows[i]) == Ok(([st] + rest)[i])
    ensures forall i :: 0 <= i < |rows| ==> ([st] + rest)[i].number !in seen
    ensures DistinctNumbers([st] + rest)
  {
    ConsRows(rows, st, rest);
    ConsDistinct(seen, st, rest);
  }

  lemma ConsRows(rows: seq<Row>, st: Student, rest: seq<Student>)
    requires |rows| > 0 && RowStudent(rows[0]) == Ok(st)
    requires |rest| == |rows| - 1
    requires forall i :: 0 <= i < |rest| ==> RowStudent(rows[1..][i]) == Ok(rest[i])
    ensures forall i :: 0 <= i < |rows| ==> RowStudent(rows[i]) == Ok(([st] + rest)[i])
  {
    var loads := (row: Row, s: Student) => RowStudent(row) == Ok(s);
    ConsRelated(rows, st, rest, loads);
  }

  /** A relation holding pairwise on the tails and on the heads holds pairwise on the whole. */
  lemma ConsRelated<A, B>(xs: seq<A>, y: B, ys: seq<B>, rel: (A, B) -> bool)
    requires |xs| > 0 && rel(xs[0], y) && |ys| == |xs| - 1
    requires forall i :: 0 <= i < |ys| ==> rel(xs[1..][i], ys[i])
    ensures forall i :: 0 <= i < |xs| ==> rel(xs[i], ([y] + ys)[i])
  {
    forall i | 1 <= i < |xs|
      ensures rel(xs[i], ([y] + ys)[i])
    {
      assert xs[i] == xs[1..][i - 1];
    }
  }

  lemma ConsDistinct(seen: set<string>, st: Student, rest: seq<Student>)
    requires st.number !in seen
    requires forall i :: 0 <= i < |rest| ==> rest[i].number !in seen + {st.number}
    requires DistinctNumbers(rest)
    ensures forall i :: 0 <= i < |rest| + 1 ==> ([st] + rest)[i].number !in seen
    ensures DistinctNumbers([st] + rest)
  {
  }

  /** The stripped student number of each row, in order. */
  function Numbers(rows: seq<Row>): (r: seq<Option<string>>)
    ensures |r| == |rows|
  {
    MapSeq(NumberOf, rows)
  }

  function MapSeq<A, B>(f: A -> B, xs: seq<A>): (r: seq<B>)
    ensures |r| == |xs| && forall i :: 0 <= i < |xs| ==> r[i] == f(xs[i])
  {
    seq(|xs|, i requires 0 <= i < |xs| => f(xs[i]))
  }

  /** Mapping the rows after the first is dropping the first of the mapped rows. */
  lemma MapSeqTail<A, B>(f: A -> B, xs: seq<A>)
    requires |xs| > 0
    ensures MapSeq(f, xs)[1..] == MapSeq(f, xs[1..])
  {
    var a, b := MapSeq(f, xs)[1..], MapSeq(f, xs[1..]);
    forall k | 0 <= k < |a|
      ensures a[k] == b[k]
    {
      assert xs[1..][k] == xs[k + 1];
    }
  }

  /** `m` occurs at some position after an earlier occurrence, or occurs and was already in `seen`. */
  predicate Repeated(ns: seq<Option<string>>, seen: set<string>, m: string) {
    exists j :: 0 <= j < |ns| && ns[j] == Some(m) && (m in seen || Some(m) in ns[..j])
  }

  /** A load fails on a duplicate only for a number seen before or carried by two rows. */
  lemma {:induction false} LoadFromDuplicate(rows: seq<Row>, seen: set<string>)
    ensures var r := LoadFrom(rows, seen);
      r.Err? && r.error.DuplicateNumber? ==> Repeated(Numbers(rows), seen, r.error.number)
    decreases |rows|
  {
    var r := LoadFrom(rows, seen);
    if |rows| > 0 && r.Err? && r.error.DuplicateNumber? {
      var ns := Numbers(rows);
      var n := NumberOf(rows[0]).value;
      if n in seen {
        assert r.error.number == n;
        assert ns[0] == Some(n);
      } else {
        assert RowStudent(rows[0]).Ok?;
        assert r == LoadFrom(rows[1..], seen + {n});
        LoadFromDuplicate(rows[1..], seen + {n});
        MapSeqTail(NumberOf, rows);
        RepeatedCons(ns, seen, n, r.error.number);
      }
    }
  }

  /** A repetition after the first position, with the first value `n` counted as seen, is one in the whole sequence. */
  lemma RepeatedCons(ns: seq<Option<string>>, seen: set<string>, n: string, m: string)
    requires |ns| > 0 && ns[0] == Some(n)
    requires Repeated(ns[1..], seen + {n}, m)
    ensures Repeated(ns, seen, m)
  {
    var tail := ns[1..];
    var j :| 0 <= j < |tail| && tail[j] == Some(m) && (m in seen + {n} || Some(m) in tail[..j]);
    assert ns[j + 1] == Some(m);
    assert ns[..j + 1] == [ns[0]] + tail[..j];
  }

  /** A repetition with nothing seen is two positions holding the same value. */
  lemma RepeatedPair(ns: seq<Option<string>>, m: string)
    requires Repeated(ns, {}, m)
    ensures exists i, j :: 0 <= i < j < |ns| && ns[i] == Some(m) && ns[j] == Some(m)
  {
    var j :| 0 <= j < |ns| && ns[j] == Some(m) && Some(m) in ns[..j];
    var i :| 0 <= i < j && ns[..j][i] == Some(m);
    assert ns[i] == Some(m);
  }

  /** A load fails on a missing column only when some row lacks a core column. */
  lemma {:induction false} LoadFromMissing(rows: seq<Row>, seen: set<string>)
    ensures var r := LoadFrom(rows, seen);
      r.Err? && r.error.MissingColumn? ==> exists i :: 0 <= i < |rows| && RowStudent(rows[i]).Err?
    decreases |rows|
  {
    var r := LoadFrom(rows, seen);
    if |rows| > 0 && r.Err? && r.error.MissingColumn? {
      match NumberOf(rows[0])
      case None => RowStudentNeedsNumber(rows[0]);
      case Some(n) =>
        if RowStudent(rows[0]).Ok? {
          LoadFromMissing(rows[1..], seen + {n});
          var i :| 0 <= i < |rows[1..]| && RowStudent(rows[1..][i]).Err?;
          assert rows[1..][i] == rows[i + 1];
        }
    }
  }

  /** Rows that all have the core columns, with distinct numbers none of which was seen, load. */
  lemma {:induction false} LoadFromComplete(rows: seq<Row>, seen: set<string>)
    requires forall i :: 0 <= i < |rows| ==> RowStudent(rows[i]).Ok?
    requires DistinctRowNumbers(rows)
    requires forall i :: 0 <= i < |rows| ==> NumberOf(rows[i]).Some? && NumberOf(rows[i]).value !in seen
    ensures LoadFrom(rows, seen).Ok?
    decreases |rows|
  {
    if |rows| > 0 {
      var n := NumberOf(rows[0]).value;
      var tail := rows[1..];
      forall i | 0 <= i < |tail|
        ensures RowStudent(tail[i]).Ok?
        ensures NumberOf(tail[i]).Some? && NumberOf(tail[i]).value !in seen + {n}
      {
        assert tail[i] == rows[i + 1];
        assert NumberOf(rows[0]) != NumberOf(rows[i + 1]);
      }
      forall i, j | 0 <= i < j < |tail|
        ensures NumberOf(tail[i]) != NumberOf(tail[j])
      {
        assert tail[i] == rows[i + 1] && tail[j] == rows[j + 1];
      }
      LoadFromComplete(tail, seen + {n});
      assert RowStudent(rows[0]).Ok?;
    }
  }

  /**
   * `load_students`: every row becomes a student, in file order.  A row
   * without a core column, or a stripped student number seen in an earlier
   * row, fails the whole load; a roster with neither loads.
   */
  function LoadStudents(rows: seq<Row>): (r: Result<seq<Student>, RosterError>)
    ensures r.Ok? ==> |r.value| == |rows| && forall i :: 0 <= i < |rows| ==> RowStudent(rows[i]) == Ok(r.value[i])
    ensures r.Ok? ==> DistinctNumbers(r.value)
    ensures r.Err? && r.error.DuplicateNumber? ==>
      exists i, j :: 0 <= i < j < |rows| && NumberOf(rows[i]) == NumberOf(rows[j]) == Some(r.error.number)
    ensures r.Err? && r.error.MissingColumn? ==> exists i :: 0 <= i < |rows| && RowStudent(rows[i]).Err?
  {
    LoadFromOk(rows, {});
    LoadFromDuplicate(rows, {});
    LoadFromMissing(rows, {});
    var r := LoadFrom(rows, {});
    if r.Err? && r.error.DuplicateNumber? then
      RepeatedPair(Numbers(rows), r.error.number);
      r
    else
      r
  }

  /** A roster whose rows all have the core columns and carry distinct numbers always loads. */
  lemma LoadStudentsSucceeds(rows: seq<Row>)
    requires forall i :: 0 <= i < |rows| ==> RowStudent(rows[i]).Ok?
    requires DistinctRowNumbers(rows)
    ensures LoadStudents(rows).Ok?
  {
    LoadFromComplete(rows, {});
  }
}

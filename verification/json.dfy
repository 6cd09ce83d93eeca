/**
 * Parsed JSON values, as `json.load` hands them to the application, and the
 * Python conversions the loaders apply to them: `float(v)`, `bool(v)` and
 * `dict.get(k, default)`.
 */
module Json {
  import opened Wrappers
  import Assoc
  import Text

  /** A JSON value; objects keep their key order, as Python dictionaries do. */
  datatype Json =
    | JNull
    | JBool(b: bool)
    | JInt(i: int)
    | JReal(r: real)
    | JStr(s: string)
    | JArr(items: seq<Json>)
    | JObj(fields: seq<(string, Json)>)

  /**
   * Python's `float(v)`: numbers convert, booleans become 1.0 / 0.0, strings
   * are parsed; `None` stands for the `TypeError` / `ValueError` of the rest.
   */
  function Float(v: Json): (r: Option<real>)
    ensures v.JReal? ==> r == Some(v.r)
    ensures v.JInt? ==> r == Some(v.i as real)
    ensures v.JBool? ==> r.Some? && (r.value == 1.0 <==> v.b) && (r.value == 0.0 <==> !v.b)
    ensures v.JStr? ==> r == Text.ParseFloat(v.s)
    ensures v.JNull? || v.JArr? || v.JObj? ==> r.None?
  {
    match v
    case JInt(i) => Some(i as real)
    case JReal(x) => Some(x)
    case JBool(b) => Some(if b then 1.0 else 0.0)
    case JStr(s) => Text.ParseFloat(s)
    case _ => None
  }

  /** Python's `bool(v)`: false exactly for null, false, zero and empty strings, lists and objects. */
  function Truthy(v: Json): (r: bool)
    ensures v.JBool? ==> r == v.b
    ensures v.JNull? ==> !r
    ensures v.JInt? ==> (r <==> v.i != 0)
    ensures v.JReal? ==> (r <==> v.r != 0.0)
    ensures v.JStr? ==> (r <==> v.s != "")
    ensures v.JArr? ==> (r <==> v.items != [])
    ensures v.JObj? ==> (r <==> v.fields != [])
  {
    match v
    case JNull => false
    case JBool(b) => b
    case JInt(i) => i != 0
    case JReal(x) => x != 0.0
    case JStr(s) => |s| > 0
    case JArr(items) => |items| > 0
    case JObj(fields) => |fields| > 0
  }

  /**
   * For numbers and booleans Python's `bool(v)` and `float(v)` agree: a
   * value is truthy exactly when it converts to a non-zero float.
   */
  lemma TruthyIsNonZeroFloat(v: Json)
    requires v.JBool? || v.JInt? || v.JReal?
    ensures Float(v).Some?
    ensures Truthy(v) <==> Float(v).value != 0.0
  {
  }

  /** `d.get(k, default)`. */
  function GetOr(d: seq<(string, Json)>, k: string, default: Json): (r: Json)
    ensures k !in Assoc.Keys(d) ==> r == default
    ensures k in Assoc.Keys(d) ==> Assoc.Get(d, k) == Some(r)
  {
    Assoc.Get(d, k).GetOr(default)
  }

  /**
   * `d.get(k)` read as an optional value: a missing key and an explicit
   * `null` both give `None`.
   */
  function GetOptional(d: seq<(string, Json)>, k: string): (r: Option<Json>)
    ensures r.None? <==> k !in Assoc.Keys(d) || Assoc.Get(d, k) == Some(JNull)
    ensures r.Some? ==> Assoc.Get(d, k) == r
  {
    var v := Assoc.Get(d, k);
    if v.None? || v.value.JNull? then None else v
  }

  /** One entry when the value is present, none when it is absent. */
  function OptEntry(k: string, v: Option<Json>): (r: seq<(string, Json)>)
    ensures v.None? ==> r == []
    ensures v.Some? ==> r == [(k, v.value)]
  {
    if v.Some? then [(k, v.value)] else []
  }
}

/**
 * JSON values as they travel between the backend and the browser script
 * (the `valor_json` column, error bodies), with the renderings each side
 * applies to them: JavaScript `String(v)` and `JSON.stringify(v)`, Python
 * `str(v)`, and the truthiness tests of both languages.
 */
module Json {
  import opened Wrappers
  import opened Text

  /** A parsed JSON value; object members keep their text order, as written (a key may repeat). */
  datatype Json =
    | JNull
    | JBool(b: bool)
    | JNum(n: int)
    | JString(s: string)
    | JArray(items: seq<Json>)
    | JObject(members: seq<(string, Json)>)

  /** The value stored under `key` in an object's member list: the first member with that key. */
  function Get(members: seq<(string, Json)>, key: string): (r: Option<Json>)
    ensures r.Some? ==> (key, r.value) in members
    ensures r.None? ==> forall m :: m in members ==> m.0 != key
  {
    if members == [] then None
    else if members[0].0 == key then Some(members[0].1)
    else Get(members[1..], key)
  }

  /** JavaScript truthiness of a property read: `undefined`, `null`, `false`, `0` and `""` are falsy. */
  predicate JsTruthy(v: Option<Json>) {
    match v
    case None => false
    case Some(JNull) => false
    case Some(JBool(b)) => b
    case Some(JNum(n)) => n != 0
    case Some(JString(s)) => s != ""
    case Some(_) => true
  }

  /** Python truthiness: `None`, `False`, `0`, and empty strings, lists and dicts are falsy. */
  predicate PyTruthy(v: Json) {
    match v
    case JNull => false
    case JBool(b) => b
    case JNum(n) => n != 0
    case JString(s) => s != ""
    case JArray(items) => items != []
    case JObject(members) => members != []
  }

  /** The two languages disagree exactly on empty lists and empty dicts, which only JavaScript finds truthy. */
  lemma TruthinessDiffers(v: Json)
    ensures PyTruthy(v) ==> JsTruthy(Some(v))
    ensures JsTruthy(Some(v)) && !PyTruthy(v) <==> v == JArray([]) || v == JObject([])
  {
  }

  /** JavaScript `String(v)`; inside an array, `null` becomes the empty text. */
  function JsString(v: Json): (r: string)
    ensures v.JString? ==> r == v.s
    ensures v.JArray? && |v.items| == 1 && v.items[0].JString? ==> r == v.items[0].s
    decreases v, 1
  {
    match v
    case JNull => "null"
    case JBool(b) => if b then "true" else "false"
    case JNum(n) => IntToString(n)
    case JString(s) => s
    case JArray(items) => Join(JsItems(items), ",")
    case JObject(_) => "[object Object]"
  }

  /** `String(x)` of each array element as `Array.prototype.join` writes it. */
  function JsItems(items: seq<Json>): (r: seq<string>)
    ensures |r| == |items|
    ensures forall i :: 0 <= i < |items| && items[i].JString? ==> r[i] == items[i].s
    decreases items, 0
  {
    if items == [] then []
    else [if items[0].JNull? then "" else JsString(items[0])] + JsItems(items[1..])
  }

  /** `JSON.stringify(v)`, without whitespace; string escaping is not modelled. */
  function Stringify(v: Json): (r: string)
    ensures r != []
    ensures r[0] == '{' <==> v.JObject?
    ensures r[0] == '[' <==> v.JArray?
    ensures r[0] == '"' <==> v.JString?
    decreases v, 1
  {
    match v
    case JNull => "null"
    case JBool(b) => if b then "true" else "false"
    case JNum(n) => IntToString(n)
    case JString(s) => "\"" + s + "\""
    case JArray(items) => "[" + Join(StringifyItems(items), ",") + "]"
    case JObject(members) =>
      "{" + Join(seq(|members|, i requires 0 <= i < |members| => "\"" + members[i].0 + "\":" + Stringify(members[i].1)), ",") + "}"
  }

  function StringifyItems(items: seq<Json>): (r: seq<string>)
    ensures |r| == |items|
    decreases items, 0
  {
    if items == [] then [] else [Stringify(items[0])] + StringifyItems(items[1..])
  }


  /** Python `str(v)` of the value `json.loads` gives; nested strings print as their `repr`, quoting not modelled beyond `'`. */
  function PyStr(v: Json): (r: string)
    ensures v.JString? ==> r == v.s
    ensures v.JBool? ==> r == (if v.b then "True" else "False")
    ensures v.JNum? ==> r == Stringify(v)
    decreases v, 2
  {
    match v
    case JString(s) => s
    case _ => PyRepr(v)
  }

  function PyRepr(v: Json): (r: string)
    ensures r != []
    decreases v, 1
  {
    match v
    case JNull => "None"
    case JBool(b) => if b then "True" else "False"
    case JNum(n) => IntToString(n)
    case JString(s) => "'" + s + "'"
    case JArray(items) => "[" + Join(PyReprItems(items), ", ") + "]"
    case JObject(members) =>
      "{" + Join(seq(|members|, i requires 0 <= i < |members| => "'" + members[i].0 + "': " + PyRepr(members[i].1)), ", ") + "}"
  }

  function PyReprItems(items: seq<Json>): (r: seq<string>)
    ensures |r| == |items|
    decreases items, 0
  {
    if items == [] then [] else [PyRepr(items[0])] + PyReprItems(items[1..])
  }
}

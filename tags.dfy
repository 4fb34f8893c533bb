/**
 * The two template filters that read a dictionary by key. The dictionary is
 * `None` or a map; an empty map is falsy like `None`. Values are JSON-like,
 * with Python's `None` as `JNull`.
 */
module Tags {
  import opened Wrappers
  import opened Json

  /** Python truthiness of the dictionary argument. */
  predicate DictTruthy(d: Option<map<string, Json>>) {
    d.Some? && d.value != map[]
  }

  /** `get_item`: the stored value, or `None` for a missing key or a falsy dictionary. */
  function GetItem(d: Option<map<string, Json>>, key: string): (r: Json)
    ensures !DictTruthy(d) ==> r == JNull
    ensures d.Some? && key in d.value ==> r == d.value[key]
    ensures d.Some? && key !in d.value ==> r == JNull
  {
    if DictTruthy(d) then (if key in d.value then d.value[key] else JNull) else JNull
  }

  /** `get_val`: the stored value, or `""` for a missing key or a falsy dictionary. */
  function GetVal(d: Option<map<string, Json>>, key: string): (r: Json)
    ensures !DictTruthy(d) ==> r == JString("")
    ensures d.Some? && key in d.value ==> r == d.value[key]
    ensures d.Some? && key !in d.value ==> r == JString("")
  {
    if DictTruthy(d) then (if key in d.value then d.value[key] else JString("")) else JString("")
  }

  /**
   * The two filters agree on every present key and differ only in the
   * default: `get_val` is `get_item` with `""` for a key that is not there.
   */
  lemma GetValIsGetItemWithDefault(d: Option<map<string, Json>>, key: string)
    ensures d.Some? && key in d.value ==> GetVal(d, key) == GetItem(d, key)
    ensures !(d.Some? && key in d.value) ==> GetItem(d, key) == JNull && GetVal(d, key) == JString("")
  {
  }

  /** `get_item` cannot tell a stored `None` from a missing key; `get_val` can. */
  lemma StoredNoneVersusMissing(key: string, other: string)
    requires key != other
    ensures GetItem(Some(map[key := JNull]), key) == GetItem(Some(map[key := JNull]), other)
    ensures GetVal(Some(map[key := JNull]), key) != GetVal(Some(map[key := JNull]), other)
  {
  }
}

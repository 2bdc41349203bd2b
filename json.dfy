/**
 * The parsed JSON value that the checker walks. An object keeps its members
 * in the order of the Python dict built by `json.load` (insertion order);
 * a Python dict never repeats a key, so lookups take the first member with
 * the key. Numbers are kept as integers: the core never looks inside them.
 */
module JsonValue {
  import opened Wrappers

  datatype Json =
    | JNull
    | JBool(b: bool)
    | JNum(n: int)
    | JStr(s: string)
    | JArr(items: seq<Json>)
    | JObj(fields: seq<(string, Json)>)

  /** `isinstance(v, (dict, list))` */
  predicate IsContainer(v: Json) {
    v.JObj? || v.JArr?
  }

  /** The value stored under `key`, if any (`key in d` / `d[key]`). */
  function Lookup(fields: seq<(string, Json)>, key: string): (r: Option<Json>)
    ensures r.None? <==> forall i :: 0 <= i < |fields| ==> fields[i].0 != key
    ensures r.Some? ==> exists i :: 0 <= i < |fields| && fields[i] == (key, r.value)
  {
    if fields == [] then None
    else if fields[0].0 == key then Some(fields[0].1)
    else
      var r := Lookup(fields[1..], key);
      assert r.Some? ==> exists i :: 0 <= i < |fields[1..]| && fields[1..][i] == (key, r.value);
      assert r.Some? ==> exists i :: 1 <= i < |fields| && fields[i] == (key, r.value);
      r
  }

  /** `d.get(key, default)` on a dict. */
  function GetOr(fields: seq<(string, Json)>, key: string, default: Json): (r: Json)
  {
    match Lookup(fields, key)
    case Some(v) => v
    case None => default
  }
}

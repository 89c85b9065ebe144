/** JSON documents as values. The text form (parsing and serialising) is not
    modelled here; both servers receive those as functions. */
module JsonValues {
  import opened Strings

  /** A JSON value. Numbers keep their literal text; objects keep their
      members in insertion order, as Python dictionaries do. */
  datatype Json =
    | JNull
    | JBool(b: bool)
    | JNumber(literal: string)
    | JString(s: string)
    | JArray(items: seq<Json>)
    | JObject(members: seq<(string, Json)>)

  /** The value under `key` in a list of named entries (object members or
      HTTP headers); the first one if the name is repeated. */
  function Lookup<V>(entries: seq<(string, V)>, key: string): (r: Option<V>)
    ensures r.Some? <==> exists i :: 0 <= i < |entries| && entries[i].0 == key
    ensures r.Some? ==> exists i :: (0 <= i < |entries| && entries[i] == (key, r.value)
                                     && forall j :: 0 <= j < i ==> entries[j].0 != key)
  {
    if entries == [] then None
    else if entries[0].0 == key then Some(entries[0].1)
    else
      var r := Lookup(entries[1..], key);
      assert forall i :: 1 <= i < |entries| ==> entries[i] == entries[1..][i - 1];
      r
  }

  /** `j[key]` for an object `j`; None for a missing key or a non-object. */
  function Get(j: Json, key: string): Option<Json> {
    if j.JObject? then Lookup(j.members, key) else None
  }
}

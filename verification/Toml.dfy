/**
 * A parsed TOML document as the publish command reads it: a tree of tagged
 * values. Tables keep their entries in iteration order as an association
 * list; the parser has already rejected duplicate keys, and lookups take
 * the first entry with the key.
 */
module Toml {
  import opened Wrappers

  datatype Value =
    | Str(s: string)
    | Integer(i: int)
    | Boolean(b: bool)
    | Array(items: seq<Value>)
    | Table(entries: seq<(string, Value)>)

  /** The value stored under `key`, if any. */
  function Lookup(entries: seq<(string, Value)>, key: string): (r: Option<Value>)
    ensures r.None? <==> forall i :: 0 <= i < |entries| ==> entries[i].0 != key
    ensures r.Some? ==> exists i :: 0 <= i < |entries| && entries[i] == (key, r.value)
  {
    if |entries| == 0 then None
    else if entries[0].0 == key then Some(entries[0].1)
    else
      var r := Lookup(entries[1..], key);
      assert forall i :: 1 <= i < |entries| ==> entries[i] == entries[1..][i - 1];
      r
  }

  /** `Value::get(key)`: the entry of a table, and nothing for any other kind of value. */
  function Get(v: Value, key: string): Option<Value>
  {
    if v.Table? then Lookup(v.entries, key) else None
  }

  /** `.and_then(|v| v.as_str())` */
  function AsStr(v: Option<Value>): Option<string>
  {
    if v.Some? && v.value.Str? then Some(v.value.s) else None
  }
}

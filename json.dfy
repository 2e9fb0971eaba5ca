/** A decoded JSON document, as `JSONSerialization` hands it to the program, and the
    checked reads of a string, an integer, an object or an array of objects that the
    program performs on it, each of which comes back missing on a value of another kind. */
module Json {

  import opened Wrappers

  /** Numbers are kept only when integral; that is all the program reads. */
  datatype Value =
    | Null
    | Bool(b: bool)
    | Number(n: int)
    | Str(s: string)
    | Array(items: seq<Value>)
    | Object(fields: map<string, Value>)

  /** The string stored under `key`; missing when the key is absent or holds another kind of value. */
  function StringField(obj: map<string, Value>, key: string): (r: Option<string>)
    ensures r.Some? <==> key in obj && obj[key].Str?
    ensures r.Some? ==> obj[key] == Str(r.value)
  {
    if key in obj && obj[key].Str? then Some(obj[key].s) else None
  }

  /** The integer stored under `key`; missing when the key is absent or holds another kind of value. */
  function IntField(obj: map<string, Value>, key: string): (r: Option<int>)
    ensures r.Some? <==> key in obj && obj[key].Number?
    ensures r.Some? ==> obj[key] == Number(r.value)
  {
    if key in obj && obj[key].Number? then Some(obj[key].n) else None
  }

  /** The object stored under `key`; missing when the key is absent or holds another kind of value. */
  function ObjectField(obj: map<string, Value>, key: string): (r: Option<map<string, Value>>)
    ensures r.Some? <==> key in obj && obj[key].Object?
    ensures r.Some? ==> obj[key] == Object(r.value)
  {
    if key in obj && obj[key].Object? then Some(obj[key].fields) else None
  }

  /** The elements of `v` as objects, in order, when `v` is an array all of whose elements
      are objects; missing otherwise. */
  function AsObjectArray(v: Value): (r: Option<seq<map<string, Value>>>)
    ensures r.Some? <==> v.Array? && forall i :: 0 <= i < |v.items| ==> v.items[i].Object?
    ensures r.Some? ==> |r.value| == |v.items|
    ensures r.Some? ==> forall i :: 0 <= i < |r.value| ==> v.items[i] == Object(r.value[i])
  {
    if v.Array? && forall i :: 0 <= i < |v.items| ==> v.items[i].Object? then
      Some(seq(|v.items|, i requires 0 <= i < |v.items| => v.items[i].fields))
    else
      None
  }
}

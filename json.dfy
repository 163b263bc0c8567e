/**
 * The parsed JSON payload of the import/export token, with the JavaScript
 * property-access and truthiness rules the import validation relies on.
 * JSON numbers are modelled as integers.
 */
module Json {
  import opened Wrappers

  datatype Json =
    | JNull
    | JBool(b: bool)
    | JNumber(n: int)
    | JString(s: string)
    | JArray(items: seq<Json>)
    | JObject(members: seq<(string, Json)>)

  /** The value of the last member named `key`: `JSON.parse` keeps the last of duplicate keys. */
  function Lookup(members: seq<(string, Json)>, key: string): (r: Option<Json>)
    ensures r.None? <==> forall i :: 0 <= i < |members| ==> members[i].0 != key
    ensures r.Some? ==> exists i :: 0 <= i < |members| && members[i] == (key, r.value) && LastNamed(members, i)
  {
    if members == [] then None
    else if members[|members| - 1].0 == key then Some(members[|members| - 1].1)
    else Lookup(members[..|members| - 1], key)
  }

  /** No member after position `i` has the name of member `i`. */
  predicate LastNamed(members: seq<(string, Json)>, i: int)
    requires 0 <= i < |members|
  {
    forall j :: i < j < |members| ==> members[j].0 != members[i].0
  }

  /** `value[key]` on anything but null: an object's member, `undefined` (None) on every other value. */
  function Property(v: Json, key: string): (r: Option<Json>)
    requires !v.JNull?
    ensures !v.JObject? ==> r.None?
    ensures v.JObject? ==> r == Lookup(v.members, key)
  {
    if v.JObject? then Lookup(v.members, key) else None
  }

  /** JavaScript truthiness; `undefined` (None) is falsy. */
  predicate Truthy(o: Option<Json>) {
    match o
    case None => false
    case Some(JNull) => false
    case Some(JBool(b)) => b
    case Some(JNumber(n)) => n != 0
    case Some(JString(s)) => s != []
    case Some(JArray(_)) => true
    case Some(JObject(_)) => true
  }

  /** `typeof value === "number"`. */
  predicate IsNumber(o: Option<Json>) {
    o.Some? && o.value.JNumber?
  }
}

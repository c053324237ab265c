/** The JSON document the serializer builds, reduced to what the serializer
    does with it: scalars, arrays it appends to and objects it assigns keys in.
    Objects are keyed maps, as the default nlohmann::json object is a
    std::map (keys unique, later assignment wins). */
module JsonValue {

  /** A floating-point value, carried through without interpretation. */
  datatype FloatBits = FloatBits(raw: nat)

  datatype Json =
    | JNull
    | JBool(b: bool)
    | JInt(i: int)
    | JFloat(f: FloatBits)
    | JString(s: string)
    | JArray(items: seq<Json>)
    | JObject(fields: map<string, Json>)

  /** The values json_insert is applied to: a default-constructed (null)
      document, an object or an array. */
  predicate Insertable(j: Json)
  {
    j.JNull? || j.JArray? || j.JObject?
  }

  function ObjectKeys(j: Json): set<string>
  {
    if j.JObject? then j.fields.Keys else {}
  }

  /** Every key of `j` other than `key` keeps its value in `r`. */
  predicate KeepsOtherKeys(j: Json, r: Json, key: string)
    requires r.JObject?
  {
    forall k :: k in ObjectKeys(j) && k != key ==> k in r.fields && r.fields[k] == j.fields[k]
  }

  /** json_insert: append when the target is an array, otherwise assign under
      the key (a null document becomes an object on first assignment). */
  function Insert(key: string, v: Json, j: Json): (r: Json)
    requires Insertable(j)
    ensures Insertable(r)
    ensures j.JArray? ==>
              (r.JArray? && |r.items| == |j.items| + 1 && r.items[..|j.items|] == j.items && r.items[|j.items|] == v)
    ensures !j.JArray? ==> r.JObject? && r.fields.Keys == ObjectKeys(j) + {key} && r.fields[key] == v
    ensures !j.JArray? ==> KeepsOtherKeys(j, r, key)
  {
    match j
    case JArray(items) => JArray(items + [v])
    case JObject(fields) => JObject(fields[key := v])
    case JNull => JObject(map[key := v])
  }
}

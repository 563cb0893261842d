/** Plain JavaScript data as the configuration, the helpers and the cache see
    it: scalars, arrays and objects with string keys. Object keys are a map, so
    key order is not modelled; functions, dates and prototypes are not values
    here. Numbers are integers. */
module JsonTree {
  datatype Json =
    | JUndefined
    | JNull
    | JBool(b: bool)
    | JNum(n: int)
    | JStr(s: string)
    | JArr(items: seq<Json>)
    | JObj(fields: map<string, Json>)

  /** JavaScript truthiness: every array and object is truthy. */
  predicate Truthy(v: Json) {
    match v
    case JUndefined => false
    case JNull => false
    case JBool(b) => b
    case JNum(n) => n != 0
    case JStr(s) => s != ""
    case _ => true
  }

  /** `typeof v`. */
  function TypeOf(v: Json): string {
    match v
    case JUndefined => "undefined"
    case JBool(_) => "boolean"
    case JNum(_) => "number"
    case JStr(_) => "string"
    case _ => "object"
  }

  /** `typeof v === 'object' && !Array.isArray(v) && v !== null`. */
  predicate IsPlainObject(v: Json) {
    TypeOf(v) == "object" && !v.JArr? && v != JNull
  }

  /** `obj[key]` on an object; `undefined` for a missing key and for anything
      that is not an object. */
  function Get(v: Json, key: string): (r: Json)
    ensures r != JUndefined ==> v.JObj? && key in v.fields
  {
    if v.JObj? && key in v.fields then v.fields[key] else JUndefined
  }

  /** `deepClone(obj)` (and the configuration's `_deepClone`): scalars are
      returned as they are, arrays and objects are rebuilt element by element.
      As values, the copy equals the original; what the source gains is that
      no object of the copy is shared with the original, which a value model
      has no way to state. */
  function DeepClone(v: Json): (r: Json)
    ensures r == v
  {
    match v
    case JArr(items) =>
      var copy := seq(|items|, i requires 0 <= i < |items| => DeepClone(items[i]));
      assert copy == items;
      JArr(copy)
    case JObj(fields) =>
      var copy := map k | k in fields :: DeepClone(fields[k]);
      assert copy == fields;
      JObj(copy)
    case _ => v
  }
}

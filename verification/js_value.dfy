/** JavaScript scalar values as the source receives them from the UI and from
    spreadsheet cells: seats, buttons, chip counts and names can each arrive as
    a string, a number, or nothing at all. Numbers are integers here. */
module JsValue {
  import opened JsString

  datatype Value = Undefined | Null | Bool(b: bool) | Num(n: int) | Str(s: string)

  /** JavaScript truthiness: `undefined`, `null`, `false`, `0` and `''` are falsy. */
  predicate Truthy(v: Value) {
    match v
    case Undefined => false
    case Null => false
    case Bool(b) => b
    case Num(n) => n != 0
    case Str(s) => s != ""
  }

  /** `String(v)`. */
  function ToStr(v: Value): string {
    match v
    case Undefined => "undefined"
    case Null => "null"
    case Bool(b) => if b then "true" else "false"
    case Num(n) => IntToString(n)
    case Str(s) => s
  }

  /** A roster entry `{name, seat}` as the UI hands it over. */
  datatype Seated = Seated(name: string, seat: Value)
}

/** JavaScript values as far as the menu reducer looks at them, and JavaScript truthiness. */
module JsValues {

  /** A value that may be absent (`null` / `undefined` in JavaScript). */
  datatype Option<+T> = None | Some(value: T) {
    function GetOr(default: T): T {
      match this
      case Some(v) => v
      case None => default
    }
  }

  /** The JavaScript values stored in the settings maps the reducer reads.
      Numbers are modelled as integers only (no NaN, no fractions). */
  datatype Value = Undefined | Null | Bool(b: bool) | Number(n: int) | Str(s: string)

  /** JavaScript truthiness: `undefined`, `null`, `false`, `0` and `""` are falsy. */
  predicate Truthy(v: Value) {
    match v
    case Undefined => false
    case Null => false
    case Bool(b) => b
    case Number(n) => n != 0
    case Str(s) => s != ""
  }

  /** Truthiness of a string that may be `null` or `undefined`. */
  predicate TruthyString(u: Option<string>) {
    u.Some? && u.value != ""
  }

  /** Truthiness of a numeric id that may be `null` or `undefined`. */
  predicate TruthyNumber(n: Option<int>) {
    n.Some? && n.value != 0
  }
}

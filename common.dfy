/** Values shared by the three task views: optional fields, fields the server may
    send as JSON text, JavaScript truthiness of scalars, and the snackbar. */
module Common {

  datatype Option<+T> = None | Some(value: T)

  /** A field that arrives either as JSON text needing a second decode or as an
      already structured value. */
  datatype Field<T> = Encoded(text: string) | Structured(value: T)

  /** `typeof f === "string" ? JSON.parse(f) : f`, with the JSON parser passed in,
      since the parser is not part of this model. */
  function Decode<T>(f: Field<T>, parse: string -> T): T
  {
    match f
    case Encoded(text) => parse(text)
    case Structured(v) => v
  }

  /** The scalar values a presence flag can take on the wire. */
  datatype JsValue = Undefined | Null | Bool(b: bool) | Number(n: int) | Text(s: string) | Object

  /** `Boolean(v)`: false for undefined, null, false, 0 and the empty string. */
  predicate Truthy(v: JsValue)
  {
    match v
    case Undefined => false
    case Null => false
    case Bool(b) => b
    case Number(n) => n != 0
    case Text(s) => s != ""
    case Object => true
  }

  /** A string field tested with `x && ...`: present and not empty. */
  predicate Present(s: Option<string>)
  {
    s.Some? && s.value != ""
  }

  datatype Severity = Success | Info | Warning | Error

  datatype Snackbar = Snackbar(open: bool, message: string, severity: Severity)

  /** `showSnackbar(message, severity)`. */
  function ShowSnackbar(message: string, severity: Severity): Snackbar
  {
    Snackbar(true, message, severity)
  }
}

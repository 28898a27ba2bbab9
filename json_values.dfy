/**
  The values the web handlers receive from a decoded JSON request or a
  database row, with the two Python behaviours the handlers depend on:
  truthiness (`if v:`) and `u'{}'.format(v)`.
*/
module JsonValues {
  import Text

  datatype Option<T> = None | Some(value: T)

  /** The Python exceptions the store and the handlers can raise and do not catch. */
  datatype PyError =
    | KeyError(key: string)            // a missing dict key
    | NoSectionError(section: string)  // ConfigParser.set on a section the parser does not have
    | TypeError                        // slicing or subscripting a value that does not allow it
    | IndexError                       // indexing an empty string
    | ValueError(arg: string)          // int() of a non-digit, or add_section of a name lowering to "default"

  /** What an operation does: return a value or raise. */
  datatype Outcome<T> = Returns(value: T) | Raises(error: PyError)

  /** The JSON replies the handlers send: `{'response': True}`, the same with
      a `message`, and `{'response': False, 'error': ...}`. */
  datatype Reply = Done | Success(message: string) | Failure(error: string)

  /** A decoded JSON value. Numbers are integers here (see README). */
  datatype JValue = JNull | JBool(b: bool) | JNumber(n: int) | JString(s: string)

  /** A JSON object, as Python's `dict`. */
  type Record = map<string, JValue>

  /** Python truthiness: `None`, `False`, `0` and `''` are false. */
  predicate Truthy(v: JValue)
  {
    match v
    case JNull => false
    case JBool(b) => b
    case JNumber(n) => n != 0
    case JString(s) => s != []
  }

  /** `d.get(key)`: the value under `key`, or `None` when there is none. */
  function Get(d: Record, key: string): (v: JValue)
    ensures key in d ==> v == d[key]
    ensures key !in d ==> v == JNull
  {
    if key in d then d[key] else JNull
  }

  /** `u'{}'.format(v)`: the text Python prints for `v`. */
  function Format(v: JValue): (s: string)
    ensures v.JString? ==> s == v.s
  {
    match v
    case JNull => "None"
    case JBool(b) => if b then "True" else "False"
    case JNumber(n) => if n < 0 then "-" + Text.Digits(-n, 10) else Text.Digits(n, 10)
    case JString(s) => s
  }
}

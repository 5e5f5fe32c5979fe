/**
 * What crosses the HTTP boundary: decoded JSON values, request fields and the
 * replies the handlers return (status code plus body).
 */
module Http {

  /** A decoded JSON value. Numbers are modelled as integers. */
  datatype Json =
    | JNull
    | JBool(b: bool)
    | JNum(n: int)
    | JStr(s: string)
    | JArr(items: seq<Json>)
    | JObj(fields: map<string, Json>)

  /** Python truthiness of a decoded JSON value (`None`, `False`, `0`, `""`, `[]`, `{}` are false). */
  predicate Truthy(j: Json) {
    match j
    case JNull => false
    case JBool(b) => b
    case JNum(n) => n != 0
    case JStr(s) => s != []
    case JArr(items) => items != []
    case JObj(fields) => fields != map[]
  }

  /** `body.get(key)`: a missing key reads as `None`, like an explicit null. */
  function Lookup(body: map<string, Json>, key: string): Json {
    if key in body then body[key] else JNull
  }

  /** `body.get(key, default)`: the default is used only when the key is missing. */
  function LookupOr(body: map<string, Json>, key: string, default: Json): Json {
    if key in body then body[key] else default
  }

  /** A text field of a request body: missing, explicitly null, or a string. */
  datatype Field = Absent | Null | Str(s: string)

  /** Python truthiness of the field's value: present and non-empty. */
  predicate Given(f: Field) {
    f.Str? && f.s != []
  }

  /**
   * A handler's reply: a status and a value on success, or a status with the
   * `error` text and its `details`: the list of messages for signup, the
   * model's response body (one entry) when plan generation passes on a failed
   * call to the model, and nothing otherwise.
   */
  datatype Reply<T> = Ok(status: int, value: T) | Fail(status: int, error: string, details: seq<string>)

  /** Text of a 500 reply whose message is the text of a Python exception (not modelled). */
  const ServerError := "Internal Server Error"
}

/** JSON request bodies as the route handlers see them after the JSON body
    parser has run: an object from key to value. */
module Json {

  datatype Option<+T> = None | Some(value: T)

  /** A JSON value, distinguished only as far as the schemas and the SQL
      parameter binding look at it. */
  datatype Value =
    | Null
    | Int(i: int)         // a number with no fractional part
    | Fraction            // a number with a fractional part
    | Str(s: string)
    | Other               // a boolean, an array or a nested object

  /** A request body: the parsed JSON object. */
  type Body = map<string, Value>

  /** The value a handler binds into an SQL statement for `key`: a key the
      body does not carry is `undefined` in the handler, and the driver
      binds `undefined` as NULL. */
  function Bound(body: Body, key: string): Value {
    if key in body then body[key] else Null
  }
}

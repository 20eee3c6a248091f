/** Go's `interface{}` as the query engine uses it: a field value, a map of fields, or nil. */
module Values {
  datatype Value =
    | Nil
    | Bool(b: bool)
    | Float(f: real)
    | Int(i: int)
    | Str(s: string)
    | Fields(m: map<string, Value>)

  datatype Option<+T> = None | Some(value: T)

  datatype Result<+T, +E> = Ok(value: T) | Err(error: E)
}

/** Small shared datatypes. */
module Common {

  /** A value that may be absent (JavaScript `undefined` / `null`). */
  datatype Option<T> = None | Some(value: T)
}

/** Values carried in the JSON bodies the prediction service receives, and the
    result type its handlers use for the errors they turn into HTTP replies. */
module JsonValues {

  /** A scalar JSON value as it arrives in a request body (after decoding). */
  datatype Value = Num(x: real) | Str(s: string) | Bool(b: bool) | Null

  /** The success or failure of a handler step. */
  datatype Result<T, E> = Ok(value: T) | Err(error: E)
}

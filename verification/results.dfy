/** Success/failure carriers used in place of the `null` returns and thrown exceptions of chess2.js. */
module Results {

  /** A value that may be absent (chess2.js returns `null` or `false` for these). */
  datatype Option<+T> = None | Some(value: T)

  /** Either a computed value or the error the JavaScript would have thrown. */
  datatype Result<+T, +E> = Success(value: T) | Failure(error: E)
}

/** Optional values, results, and the exceptions the plugin lets escape. */
module Results {

  datatype Option<+T> = None | Some(value: T)

  datatype Result<+T, +E> = Success(value: T) | Failure(error: E)

  /** The two kinds of exception the modelled code can raise: an `IOException`
      with its message, and the `ArrayIndexOutOfBoundsException` of an
      unchecked array access, with the offending index. */
  datatype Error =
    | IOException(message: string)
    | IndexOutOfBounds(index: int)
}

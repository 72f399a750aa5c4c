/** Optional values and results with an error, used wherever the programs return
    `None`, `float('inf')` or raise an exception. */
module Options {

  datatype Option<+T> = None | Some(value: T)

  datatype Result<+T, +E> = Success(value: T) | Failure(error: E)
}

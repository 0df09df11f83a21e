/** Optional values and results with an error, standing for Python's None and
    for the exceptions the modelled code raises. */
module Results {

  datatype Option<+T> = None | Some(value: T)

  datatype Result<+T, +E> = Success(value: T) | Failure(error: E)
}

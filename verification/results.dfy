/** Optional values and results with an error, used where the source raises
    or reads an attribute that may not be set. */
module Results {

  datatype Option<+T> = None | Some(value: T)

  datatype Result<+T, +E> = Ok(value: T) | Err(error: E)
}

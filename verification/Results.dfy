/** Optional values, and values that may be missing because of an error. */
module Results {
  datatype Option<T> = None | Some(value: T)

  datatype Result<T> = Ok(value: T) | Err
}

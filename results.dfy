/** Option and Result values standing in for Java's `null` and for the exceptions
    that escape a codec call. */
module Results {

  datatype Option<T> = None | Some(value: T)

  datatype Result<T, E> = Ok(value: T) | Err(error: E)
}

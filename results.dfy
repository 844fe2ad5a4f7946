/** Option and Result: the absent value of a lookup and the error path of an operation
    that raises in the original program. */
module Results {

  datatype Option<+T> = None | Some(value: T)

  datatype Result<+T, +E> = Ok(value: T) | Err(error: E)
}

/** Failure-carrying wrappers used by the store model: an optional value and
    a value-or-error result, the Dafny counterparts of Go's `(T, error)`. */
module Results {

  datatype Option<T> = None | Some(value: T)

  datatype Result<T, E> = Ok(value: T) | Err(error: E)
}

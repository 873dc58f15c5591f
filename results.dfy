// Result and Option values shared by every module: a Go function returning
// (value, error) becomes a function returning a Result.
module Results {
  datatype Result<T, E> = Ok(value: T) | Err(error: E)

  datatype Option<T> = None | Some(value: T)
}

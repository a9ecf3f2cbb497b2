/** The two result shapes shared by the models: a value that may be missing, and a
    value or the reason there is none. */
module Results {
  datatype Option<+T> = None | Some(value: T)

  datatype Result<+T, +E> = Ok(value: T) | Err(error: E)
}

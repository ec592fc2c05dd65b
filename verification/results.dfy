/** Failure-carrying return types shared by the model: `Option` for a search that may
    find nothing, `Result` for an operation that may abort with an error value. */
module Results {

  datatype Option<+T> = None | Some(value: T)

  datatype Result<+T, +E> = Ok(value: T) | Err(error: E)
}

/** Failure-carrying values: `Result` stands for a value or a thrown error,
    `Option` for a value that may be missing. */
module Results {

  datatype Option<+T> = None | Some(value: T)

  datatype Result<+T, +E> = Ok(value: T) | Err(error: E)
}

/** Failure-carrying values shared by every service model.
    `Option` stands for a Go pointer or slice that may be nil;
    `Result` stands for Go's `(value, error)` return pair. */
module Results {

  datatype Option<+T> = None | Some(value: T)

  datatype Result<+T, +E> = Ok(value: T) | Err(error: E)
}

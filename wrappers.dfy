/** Failure-carrying values shared by the modules of this project: a Python
    function that may return `None` becomes an `Option`, one that may raise
    becomes a `Result` whose error names the raised condition. */
module Wrappers {

  datatype Option<+T> = None | Some(value: T)

  datatype Result<+T, +E> = Success(value: T) | Failure(error: E)
}

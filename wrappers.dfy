/** Option and the I/O result type shared by the walker, the filter and the pipeline. */
module Wrappers {

  datatype Option<+T> = None | Some(value: T)

  /** The two ways a directory traversal can fail in the model: `read_dir` was
      called on something that is not a directory, or a directory (or one of
      its entries) could not be read. */
  datatype IoError = NotADirectory | Unreadable

  /** Rust's `io::Result`, usable with `:-` the way the source uses `?`. */
  datatype Result<+T> = Ok(value: T) | Err(error: IoError) {

    predicate IsFailure() {
      Err?
    }

    function PropagateFailure<U>(): Result<U>
      requires Err?
    {
      Err(error)
    }

    function Extract(): T
      requires Ok?
    {
      value
    }
  }
}

/** Failure-carrying result types shared by the model. A C++ exception or a
    `bool` + out-parameter return in the emulator becomes one of these. */
module Wrappers {

  /** An optional value: `None` where the source returns `false` and leaves
      its out-parameter alone. */
  datatype Option<+T> = None | Some(value: T)

  /** A value or an error: `Err` where the source throws or returns an error
      alternative. */
  datatype Result<+T, +E> = Ok(value: T) | Err(error: E)
}

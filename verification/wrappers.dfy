/** Failure-carrying datatypes shared by the whole model.

    Python signals "no value" with `None`, with a sentinel such as `[]` or `""`, or by
    raising. The model uses `Option` where the source has exactly one way to fail and
    `Result` where the kind of failure matters to a caller. */
module Wrappers {

  datatype Option<+T> = None | Some(value: T)

  datatype Result<+T, +E> = Ok(value: T) | Err(error: E)
}

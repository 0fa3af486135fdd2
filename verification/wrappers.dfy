/** Failure-carrying datatypes shared by the whole model. */
module Wrappers {

  /** Python's `X | None`. */
  datatype Option<+T> = None | Some(value: T)

  /** A value or an error, for operations that raise. */
  datatype Result<+T, +E> = Ok(value: T) | Err(error: E)

  /** What a call into code outside the model (a subprocess, a mocked
      collaborator) did: it returned a value or raised an exception whose
      text is `error`. */
  datatype Call<+T> = Returned(value: T) | Raised(error: string)
}

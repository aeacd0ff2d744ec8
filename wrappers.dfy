/** Option and Result, for the readout's "not fitted yet" case. */
module Wrappers {

  datatype Option<T> = None | Some(value: T)

  /** The one error the orchestrator can surface from its collaborators. */
  datatype Error = NotFitted

  datatype Result<T> = Success(value: T) | Failure(error: Error)
}

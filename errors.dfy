/** Option and Result datatypes and the error kinds of the MSTL driver. */
module Errors {

  datatype Option<+T> = None | Some(value: T)

  datatype Result<+T, +E> = Ok(value: T) | Err(error: E)

  /** An error raised by the external single-season STL primitive. */
  type StlError = string

  /**
   * The crate's error type, as far as the driver raises it: its own failures
   * carry a message, and failures of the STL primitive are wrapped unchanged.
   */
  datatype Error = MstlFailure(message: string) | StlFailure(cause: StlError)

  /** Raised when the period list is empty or its smallest period is at most 1. */
  const NonSeasonalMessage := "non-seasonal data not supported"

  /** Raised when no STL fit was ever made, because no period survived filtering. */
  const NoFitMessage := "no STL fit"

  lemma MessagesDiffer()
    ensures NonSeasonalMessage != NoFitMessage
  {
    assert |NonSeasonalMessage| != |NoFitMessage|;
  }
}

/** Outcomes of the operations that can raise in the original program. */
module Errors {

  /** The exceptions the modelled code can raise. */
  datatype Error =
    | NoCards            // `most_common()[0]` on an empty counter raises IndexError
    | NegativeSelection  // `combinations` with a negative size raises ValueError

  datatype Result<+T> = Ok(value: T) | Err(error: Error)
}

/** Values shared by the calculators: optional fields and the error outcomes
    that the Python code raises as exceptions. */
module Results {

  /** An optional field (Python `Optional[T]` defaulting to `None`). */
  datatype Option<T> = None | Some(value: T)

  /** The failures a computation can end in. */
  datatype Error =
    | ScoresWeightsLengthMismatch        // ValueError raised by weighted_score
    | ValuesProbabilitiesLengthMismatch  // ValueError raised by expected_utility
    | EmptyMax                           // ValueError raised by max() over an empty range
    | OfferIndexOutOfRange               // IndexError raised by offers[best_index]

  /** Either the value computed or the error that aborted the computation. */
  datatype Result<T> = Ok(value: T) | Err(error: Error)
}

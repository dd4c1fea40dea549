/** Failure-carrying values shared by every module of the model. */
module Wrappers {

  datatype Option<+T> = None | Some(value: T)

  /** The ways a call of the library can fail. Each constructor names the
      Python exception (or the not-a-number result) it stands for. */
  datatype Error =
    | EmptyIndices        // np.min of an empty index array raises ValueError
    | EmptyWindow         // np.max of an empty dispersion window raises ValueError
    | NegativeWindow      // a negative window length in samples (slicing from the end; not modelled)
    | TooFewTimestamps    // mean of an empty difference array is NaN
    | ZeroInterval        // 1 / mean(diff) with a zero mean is infinite
    | ZeroRate            // 1 / sfreq with sfreq == 0 raises ZeroDivisionError
    | MaskLengthMismatch  // a boolean mask of length 1 applied to an empty array raises IndexError
    | EmptyPopulation     // median of an empty velocity population is NaN

  datatype Result<+T> = Ok(value: T) | Err(error: Error)
}

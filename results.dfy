/** Optional values, results and the error messages of the solver pipeline. */
module Results {

  datatype Option<+T> = None | Some(value: T)

  datatype Result<+T, +E> = Ok(value: T) | Err(error: E)

  /** The failures `solve` can report before the solver branch is chosen. */
  datatype Failure =
    | MissingSeparator   // no '=' in the input (the source panics here)
    | WrongFormat        // a side does not match the term grammar
    | NoPower            // the reduced polynomial has no entry at all
    | DegreeAboveTwo     // the largest power of the reduced polynomial exceeds 2
}

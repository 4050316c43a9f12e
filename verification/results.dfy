/** The outcome of an evaluation that may raise. */
module Results {

  /** Either the computed value or the error the computation raised. */
  datatype Result<+T, +E> = Success(value: T) | Failure(error: E)
}

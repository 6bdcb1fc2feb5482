/** Results of operations that throw in the original. */
module Results {
  datatype Error = InvalidHdlcFrame | InvalidCosemFrame | RuntimeError

  datatype Result<+T> = Ok(value: T) | Err(error: Error)

  datatype Option<+T> = None | Some(value: T)
}

/** Failure values for the few places where the scripts can raise. */
module Outcomes {

  /** The exceptions the modelled code can raise: a dictionary lookup on a
      missing key, and the division by the node count in the analysis report. */
  datatype Error = KeyError(key: string) | ZeroDivisionError

  datatype Result<+T> = Ok(value: T) | Err(error: Error)

  datatype Option<+T> = None | Some(value: T)
}

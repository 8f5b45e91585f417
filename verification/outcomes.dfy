/** Failure-carrying results used by the searches and the tracer. */
module Outcomes {

  /** An optional value: the result of a search that may find nothing. */
  datatype Option<+T> = None | Some(value: T)

  /** Either a value or an error describing why no value was produced. */
  datatype Result<+R, +E> = Ok(value: R) | Err(error: E)
}

/** Option and Result values for lookups that may miss and operations that may fail. */
module Wrappers {

  datatype Option<T> = None | Some(value: T)

  /** The two ways a request on the store fails: a lookup by identifier that finds
      nothing (answered with a 404 page), and a write that a database constraint
      (unique, not-null or foreign key) refuses. */
  datatype Failure = NotFound | IntegrityError

  datatype Result<T> = Ok(value: T) | Err(failure: Failure)
}

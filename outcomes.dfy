/** Results and error kinds shared by the store's operations. */
module Outcomes {

  datatype Option<T> = None | Some(value: T)

  /**
   * Why an operation was refused.
   *  - NotFound: the addressed row (or, for a request submission, the pool in
   *    the route) does not exist, or is not visible through the route.
   *  - Invalid(fields): field validation failed; `fields` names every
   *    offending column, as the error body of a rejected request does.
   *  - Duplicate: the (pool, email) uniqueness constraint refused the write.
   */
  datatype Error = NotFound | Invalid(fields: set<string>) | Duplicate

  datatype Result<T> = Ok(value: T) | Err(error: Error)
}

/** Option and Result: the failure-carrying values the pipeline returns
    where the scraper raises an exception. */
module Wrappers {

  datatype Option<+T> = None | Some(value: T)

  datatype Result<+R, +E> = Success(value: R) | Failure(error: E)
}

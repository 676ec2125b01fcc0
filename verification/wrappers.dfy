/** Optional values and error-carrying results for the pipeline's missing values and failure paths. */
module Wrappers {

  /** An optional value: a nullable column, a missing file, an absent cache entry. */
  datatype Option<+T> = None | Some(value: T) {

    /** The wrapped value, or `default` when there is none (a fill of a missing cell). */
    function WithDefault(default: T): T {
      match this
      case Some(v) => v
      case None => default
    }
  }

  /** The outcome of a step that may raise. */
  datatype Result<+R, +E> = Success(value: R) | Failure(error: E)
}

/** Optional values and success-or-error results, used where the source returns None or raises. */
module Results {

  /** `None` stands for Python's None. */
  datatype Option<T> = None | Some(value: T)

  /** `Failure` carries the message of the ValueError the source raises. */
  datatype Result<T> = Success(value: T) | Failure(error: string)
}

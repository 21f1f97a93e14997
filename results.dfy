/** Optional values and success-or-error results, standing in for Python's
    `None` and for the exceptions the scraper raises. */
module Results {

  datatype Option<T> = None | Some(value: T)

  datatype Result<T, E> = Success(value: T) | Failure(error: E)
}

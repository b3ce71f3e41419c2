/** Optional values and results, used for JavaScript's `undefined` / `null`
    and for the persistence layer's success-or-error answers. */
module Optional {

  datatype Option<+T> = None | Some(value: T)

  datatype Result<+T, +E> = Ok(value: T) | Err(error: E)
}

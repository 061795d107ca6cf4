/** Go's `nil`-or-value conventions: an `error` is `None` when nil and `Some(message)`
    otherwise; a function returning `(T, error)` returns a `Result`. */
module Results {

  datatype Option<+T> = None | Some(value: T)

  datatype Result<+T> = Ok(value: T) | Err(msg: string)
}

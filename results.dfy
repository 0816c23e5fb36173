/** Error outcomes shared by the model: the exceptions, `false` returns and
    null returns of the original are all `Err` values here. */
module Results {
  datatype Result<T, E> = Ok(value: T) | Err(error: E)
  {
    predicate IsOk() { this.Ok? }
  }

  datatype Option<T> = None | Some(value: T)
}

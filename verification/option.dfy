/** An optional value: std::optional, or a result that may be absent. */
module Options {
  datatype Option<T> = None | Some(value: T)
}

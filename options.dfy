/** Java's `null` result of a lookup, made explicit. */
module Options {
  datatype Option<T> = None | Some(value: T)
}

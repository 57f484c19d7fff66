/** Java's `null` result, made explicit. */
module Options {

  datatype Option<+T> = None | Some(value: T)
}

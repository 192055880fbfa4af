/** An optional value, where the C code has "no such thing": a null pointer, an empty queue, a missing message. */
module Options {
  datatype Option<+T> = None | Some(value: T)
}

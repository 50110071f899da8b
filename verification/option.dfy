/** An optional value: a null pointer, an end of input or an out-of-memory
    abort are None. */
module Optional {
  datatype Option<T> = None | Some(value: T)
}

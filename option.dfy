/** An optional value, shared by the modules that look something up. */
module Optional {
  datatype Option<T> = None | Some(value: T)
}

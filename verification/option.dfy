/** An optional value; `None` stands for a null pointer in the wrapper's interface. */
module Optional {
  datatype Option<T> = None | Some(value: T)
}

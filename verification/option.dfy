/** The optional value the store uses for "not found" and for an absent storage item. */
module Options {
  datatype Option<T> = None | Some(value: T)
}

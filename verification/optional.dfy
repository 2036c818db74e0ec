/** The optional result of a lookup: `search` reports absence through a
    distinct `None` rather than through a sentinel value. */
module Optional {
  datatype Option<T> = None | Some(value: T)
}

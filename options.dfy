/** The optional value used where the source returns `null` or an absent entry. */
module Options {

  datatype Option<T> = None | Some(value: T)
}

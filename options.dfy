/** An optional value: the solver's `null` results and the falsy row entries it drops. */
module Options {
  datatype Option<T> = None | Some(value: T)
}

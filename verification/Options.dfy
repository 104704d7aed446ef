/** A value that may be missing: what the programs signal by an exception, a flag or an absent key. */
module Options {

  datatype Option<T> = None | Some(value: T)
}

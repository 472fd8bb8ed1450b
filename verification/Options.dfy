// A value that may be missing: a column that may be NULL, a read that may fail.
module Options {

  datatype Option<T> = None | Some(value: T)
}

/** A value that may be absent: a missing field, a failed parse, a refused request. */
module Options {

  datatype Option<+T> = None | Some(value: T)
}

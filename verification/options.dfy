/** JavaScript's `undefined` / `null` for a single value, as an explicit choice. */
module Options {

  datatype Option<+T> = None | Some(value: T)
}

/** The `None` that the source's catch-all handlers return on any failure. */
module Wrappers {

  datatype Option<+T> = None | Some(value: T)
}

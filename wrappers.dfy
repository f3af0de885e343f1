/** An optional value: a request field that may be absent, or the result of a lookup. */
module Wrappers {

  datatype Option<+T> = None | Some(value: T)
}

/** An optional value: the JavaScript `null`/`undefined` of the source. */
module Wrappers {

  datatype Option<+T> = None | Some(value: T)
}

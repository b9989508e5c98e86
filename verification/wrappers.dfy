/** The optional value used wherever the page holds `null`/`undefined`
    or a value that may be absent from a response. */
module Wrappers {

  datatype Option<+T> = None | Some(value: T)
}

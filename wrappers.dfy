/** The optional values the handlers see: a header that may be absent, a body
    field that may be missing, a text node that may be null. */
module Wrappers {

  datatype Option<+T> = None | Some(value: T)
}

/** The outcome of a browser lookup: the element's text, or nothing when the
    lookup timed out, found no element or raised. */
module Wrappers {
  datatype Option<+T> = None | Some(value: T)
}

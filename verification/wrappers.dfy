/** The absent-or-present value used for the optional fields of a query
    and for the partial parses of the JavaScript built-ins. */
module Wrappers {

  datatype Option<+T> = None | Some(value: T)
}

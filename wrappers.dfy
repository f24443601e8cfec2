/** The optional value that `search` returns: `None` when the query has no term. */
module Wrappers {

  datatype Option<+T> = None | Some(value: T)
}

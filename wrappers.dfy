/** The optional value used wherever the source returns `None` or a regular
    expression finds no match. */
module Wrappers {

  datatype Option<+T> = None | Some(value: T)
}

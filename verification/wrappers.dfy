/** The optional value used where the library calls `Vec::get`, which yields
    `None` for an index past the end of the vector. */
module Wrappers {

  datatype Option<+T> = None | Some(value: T)
}

/** The optional value used across the model: `Option` for the scanners that
    return a record or `undefined`, and for an error that may have stopped a
    walk. */
module Wrappers {

  datatype Option<+T> = None | Some(value: T)
}

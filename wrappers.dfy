/** The optional value used for Python's `Optional[...]` fields and for
    lookups that may fail. */
module Wrappers {

  datatype Option<+T> = None | Some(value: T)
}

/** The optional value used for Python's "absent key" and "None" results. */
module Wrappers {

  datatype Option<+T> = None | Some(value: T)
}

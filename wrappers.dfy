/** The optional command argument of the admin interface. */
module Wrappers {

  datatype Option<+T> = None | Some(value: T)
}

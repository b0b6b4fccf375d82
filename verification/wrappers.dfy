/** Values that may be missing: the entity's `None` attributes and absent status keys. */
module Wrappers {

  datatype Option<+T> = None | Some(value: T)
}

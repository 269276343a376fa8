/** The optional-value wrapper used for lookups and load outcomes. */
module Wrappers {

  datatype Option<+T> = None | Some(value: T)
}

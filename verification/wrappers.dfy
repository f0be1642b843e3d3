/** Optional values, used where a UI handler may or may not have obtained a
    number from its text field. */
module Wrappers {

  datatype Option<+T> = None | Some(value: T)
}

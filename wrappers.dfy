/** Option: the absence of a value, used where the widget's code throws or has nothing to show. */
module Wrappers {

  datatype Option<+T> = None | Some(value: T)
}

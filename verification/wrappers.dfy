/** The optional value used wherever the script may find nothing: a missing
    alt attribute, an absent table entry, a key that `find` did not return. */
module Wrappers {

  datatype Option<+T> = None | Some(value: T)
}

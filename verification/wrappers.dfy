/** The absent-value signal the algorithms return in place of `null`, and
    the "infinity" of a tentative distance. */
module Wrappers {

  datatype Option<+T> = None | Some(value: T)
}

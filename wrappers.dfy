/** Python's `None`-or-value, as the handler uses it for the admin address and the
    recipient lists. */
module Wrappers {

  datatype Option<+T> = None | Some(value: T)
}

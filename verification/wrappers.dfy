// Results that may be absent, as the repository's `null` and `undefined` returns are.
module Wrappers {

  datatype Option<+T> = None | Some(value: T)
}

/** The optional value used wherever a JavaScript property read can yield `undefined`. */
module Wrappers {

  /** `None` plays the part of `undefined`; `Some(v)` is a present value. */
  datatype Option<+T> = None | Some(value: T)
}

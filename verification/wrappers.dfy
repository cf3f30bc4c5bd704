/** The optional-value type used by the extractor and the message handler. */
module Wrappers {

  /** `None` stands for Python's falsy "no match" / "nothing forwarded". */
  datatype Option<+T> = None | Some(value: T)
}

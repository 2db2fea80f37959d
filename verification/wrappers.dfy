/** The optional value shared by the other modules. */
module Wrappers {

  /** A value that may be absent. Each use site says what `None` stands for:
      an exception raised while reading, or JSON `null`. */
  datatype Option<+T> = None | Some(value: T)
}

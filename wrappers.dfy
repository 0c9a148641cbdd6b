/** The outcome of a step that can fail. */
module Wrappers {

  /** `None` stands for the exception the source lets escape. */
  datatype Option<T> = None | Some(value: T)
}

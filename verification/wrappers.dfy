/** The optional value used wherever the scraper returns `None` or an empty result. */
module Wrappers {

  /** `None` stands for Python's `None` (a failed fetch, a missing element, a missing attribute). */
  datatype Option<+T> = None | Some(value: T)
}

/** The optional value: `None` stands for JavaScript's `undefined` (a missing
    property, or `find` that found nothing). */
module Wrappers {
  datatype Option<+T> = None | Some(value: T)
}

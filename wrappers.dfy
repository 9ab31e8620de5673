/** The optional value used wherever the crawler sees "nothing here" (None). */
module Wrappers {
  datatype Option<+T> = None | Some(value: T)
}

/** An optional value, used wherever the source may come back with nothing
    (a missing results container, a failed `split`, no occurrence of a pattern). */
module Wrappers {
  datatype Option<+T> = None | Some(value: T)
}

/** The nullable result of a lookup (Kotlin's `Task?`), as an explicit option. */
module Wrappers {

  /** `None` stands for Kotlin's `null`; `Some(v)` for a non-null reference to `v`. */
  datatype Option<+T> = None | Some(value: T)
}

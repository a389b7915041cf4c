/** The null-or-value results of the simulation's lookups. */
module Wrappers {

  /** `None` stands for the source's `null` result. */
  datatype Option<+T> = None | Some(value: T)
}

/** The optional-value type shared by the other modules. */
module Wrappers {

  /** An optional value: `None` stands for a value the program could not obtain
      (an index that did not parse, a table that was never built). */
  datatype Option<T> = None | Some(value: T)
}

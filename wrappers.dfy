/** Option and Result, as used by the rest of the model. */
module Wrappers {

  /** `None` stands for Python's `None` (and for `math.nan` in a plotted series). */
  datatype Option<+T> = None | Some(value: T)

  /** `Err` stands for an exception the source raises. */
  datatype Result<+T, +E> = Ok(value: T) | Err(error: E)
}

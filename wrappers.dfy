/** The value-or-error result shared by the model: the shape Go expresses
    as a `(T, error)` pair. */
module Wrappers {

  datatype Result<+T, +E> = Ok(value: T) | Err(error: E)
}

/** Option and Result wrappers, and the error kinds the corrections core raises. */
module Wrappers {

  /** `None` stands for NumPy's NaN wherever the source stores "no value". */
  datatype Option<+T> = None | Some(value: T)

  /** The result of an operation that may raise. */
  datatype Result<+T, +E> = Success(value: T) | Failure(error: E)
}

module Errors {

  /** The exceptions of the corrections core.
      - LevelNotFound: the minimum pressure level is not among the model's levels
        (an IndexError in the source).
      - GridMismatch: the weather model and the DEM have different grid sizes
        (an IndexError in the source).
      - InvalidPatch: the patch size cannot be cut into windows with a step of
        at least one that fit inside the grid (raised by `view_as_windows`). */
  datatype Error = LevelNotFound | GridMismatch | InvalidPatch
}

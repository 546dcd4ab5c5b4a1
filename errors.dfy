/** The two error kinds the sparse matrix raises, a result type that
    carries either a value or one of them (the exceptions become values),
    and an optional value for arrays that may not be allocated yet. */
module Errors {

  datatype MatrixError =
    | InvalidDimensions   // incompatible or non-positive extents
    | InvalidCoordinates  // a row or column outside the declared bounds

  datatype Result<T> = Ok(value: T) | Err(error: MatrixError)

  datatype Option<T> = None | Some(value: T)
}

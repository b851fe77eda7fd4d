/** Errors raised by the RBF core and the Result and Option types that carry them. */
module Outcomes {

  /** Every way construction can fail. Julia raises these as exceptions; here they are values. */
  datatype Error =
    // kernel parameter checks (AssertionError in the constructors)
    | ShapeNotPositive
    | ExponentIsInteger
    | ExponentNotPositive
    | ExponentIsEven
    | OrderNotPositiveInteger
    // a kernel constructor called with more arguments than it declares (MethodError)
    | TooManyArguments
    // data checks of the model constructor (AssertionError)
    | SiteValueCountMismatch
    | NoSites
    | SiteDimensionMismatch
    | ValueDimensionMismatch
    | KernelCountMismatch
    // faults of the code as written
    | UndefinedVariable(name: string)
    | NoMethod(name: string)
    // the basis recursion does not stop for zero-dimensional sites
    | StackOverflow
    // the dense solve found no solution
    | SingularSystem
    // evaluation: a point of the wrong dimension, an output index out of range
    | DimensionMismatch
    | IndexOutOfBounds

  datatype Result<+T> = Success(value: T) | Failure(error: Error)

  datatype Option<+T> = None | Some(value: T)
}

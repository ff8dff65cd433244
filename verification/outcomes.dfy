/** The errors the MVTec AD loader raises, and the result types that carry them. */
module Outcomes {

  /** One constructor per exception this model covers. */
  datatype Error =
    | MissingGoodClass        // `classes.remove('good')` raises ValueError
    | UnknownDataset(name: string) // `download` rejects a name outside the known table
    | TransferFailure         // propagated from the external fetch-and-extract routine
    | DatasetNotFound         // RuntimeError: the split folder does not exist

  /** A computation that either yields a value or raises. */
  datatype Result<+T> = Success(value: T) | Failure(error: Error)

  /** A step run only for its effect, which either returns or raises. */
  datatype Outcome = Pass | Fail(error: Error)
}

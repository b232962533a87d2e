/**
 * Failure-compatible results for the optimizer. The C++ optimizer signals
 * configuration mistakes by throwing std::invalid_argument or by returning
 * kError, and internal inconsistencies through a sticky status flag; here every
 * one of them is an explicit failure value that the caller sees at once.
 */
module Outcomes {

  /** Why an operation failed. */
  datatype Error =
    | PopulationTooSmall     // Init: population < 1
    | DimensionTooSmall      // Init, SetFeed: dimension < 1
    | BoundsNotIncreasing    // SetAllBounds: lbound >= ubound
    | ShareOutOfRange        // SetBestShareP: p outside [0, 1]
    | RateOutOfRange         // SetAdapitonFrequencyC: c outside [0, 1]
    | FeedDimensionMismatch  // SetFeed: a feed vector of the wrong length
    | FeedTooLarge           // CreateInitialPopulation: no slot left for random vectors
    | BoundsOutOfOrder       // CreateInitialPopulation: lbound[d] > ubound[d]
    | IndexOutOfRange        // std::vector::at with a bad index (GetXpBestCurrent)
    | StatusFlagSet          // RunOptimization: the sticky status flag is set
    | DrawsExhausted         // a rejection loop used up the draws it was given
    | AssertionFailed        // a Python `assert` that does not hold
    | EmptyPopulation        // Python max() over an empty population
    | UnboundResult          // Python name `best` read before any assignment
    | InvalidScale           // np.random.normal with a negative scale (ValueError)
    | InvalidSample          // random.sample with a negative or too large count (ValueError)

  datatype Result<+T> = Success(value: T) | Failure(error: Error) {
    predicate IsFailure() { Failure? }

    function PropagateFailure<U>(): Result<U>
      requires Failure?
    {
      Failure(error)
    }

    function Extract(): T
      requires Success?
    {
      value
    }
  }

  /** The kDone / kError status of a step that produces no value. */
  datatype Outcome = Pass | Fail(error: Error) {
    predicate IsFailure() { Fail? }

    function PropagateFailure(): Outcome
      requires Fail?
    {
      this
    }
  }

  datatype Option<+T> = None | Some(value: T)
}

/** Error values shared by the reconciliation components. */
module Errors {
  datatype Error =
    | InvalidSketchCapacity | InvalidSketchLength | InvalidBucketIndex
    | ZeroShortIdentifier | CountOverflow | CountUnderflow
    | DecodeFailure | BudgetExhausted
}

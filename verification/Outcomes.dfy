/** How a duel stands, and what a searched score says about the true one. */
module Outcomes {
  datatype Outcome = Unresolved | Win | Draw | Loss

  datatype Bound = Exact | LowerBound | UpperBound
}

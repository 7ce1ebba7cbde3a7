/** What the simulator hands a predictor and what it gets back. The
    simulator's own branch_info and branch_update classes are not part of this
    model; only the members the predictors read or write are kept. */
module Branch {
  import opened Primitives

  /** branch_info as the predictors use it: the branch's address (an
      `unsigned int`) and whether BR_CONDITIONAL is among its flags. */
  datatype BranchInfo = BranchInfo(address: uint32, isConditional: bool)

  /** The direction and target a predict call hands back (the public part of
      branch_update). */
  datatype Prediction = Prediction(taken: bool, target: uint32)

  /** What every predictor answers for a branch that is not conditional, and
      what the stub answers for every branch: taken, with target 0. */
  const AlwaysTaken: Prediction := Prediction(true, 0)
}
